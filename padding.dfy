/**
 * Message padding (`pad`, FIPS PUB 180-4 section 5.1.1): the message, the
 * marker byte 0x80, the fewest zero bytes that make the total a multiple of
 * 64, and the message length in bits as an 8-byte big-endian number.
 */
module Padding {
  import opened Words

  /** Messages of at least 2^61 bytes have a bit length that does not fit in 64 bits. */
  const LengthLimit: nat := 0x2000_0000_0000_0000

  /** usize is 64 bits wide; release builds reduce its arithmetic modulo 2^64. */
  const UsizeModulus: nat := 0x1_0000_0000_0000_0000

  datatype HashError = LengthOverflow

  datatype Result<T> = Success(value: T) | Failure(error: HashError)

  datatype Option<T> = None | Some(value: T)

  function Wrap(x: nat): nat
  {
    x % UsizeModulus
  }

  function CeilDiv(a: nat, b: nat): nat
    requires b > 0
  {
    (a + b - 1) / b
  }

  function Zeros(n: nat): (z: seq<byte>)
    ensures |z| == n
    ensures forall i :: 0 <= i < n ==> z[i] == 0
  {
    seq(n, _ => 0)
  }

  /** `required_padding_bits` of `pad`: 512 minus (bit length + 1 + 64) mod 512, in wrapping usize arithmetic. */
  function RequiredPaddingBits(len: nat): nat
  {
    512 - Wrap(Wrap(len * 8) + 1 + 64) % 512
  }

  /**
   * The number of zero bytes `pad` puts between the marker and the length
   * field: the padding bits rounded up to bytes, less the marker byte.
   */
  function ZeroCount(len: nat): (z: nat)
    ensures z < 64
    ensures (len + 1 + z + 8) % 64 == 0
  {
    ZeroCountClosedForm(len);
    FillsBlock(len);
    CeilDiv(RequiredPaddingBits(len), 8) - 1
  }

  /** The fewest bytes that, after the marker and the length field, end a message of len bytes on a block boundary. */
  function Fill(len: nat): nat
  {
    if len % 64 <= 55 then 55 - len % 64 else 119 - len % 64
  }

  lemma FillsBlock(len: nat)
    ensures Fill(len) < 64
    ensures (len + 1 + Fill(len) + 8) % 64 == 0
  {
    var q := len / 64;
    if len % 64 <= 55 {
      assert len + 1 + Fill(len) + 8 == 64 * (q + 1);
    } else {
      assert len + 1 + Fill(len) + 8 == 64 * (q + 2);
    }
  }

  /** The zero count `pad` computes is the closed form `Fill`. */
  lemma ZeroCountValue(len: nat)
    ensures ZeroCount(len) == Fill(len)
  {
    ZeroCountClosedForm(len);
  }

  /** No smaller number of zero bytes would fill the last block. */
  lemma ZeroCountIsLeast(len: nat, y: nat)
    requires y < ZeroCount(len)
    ensures (len + 1 + y + 8) % 64 != 0
  {
    ZeroCountValue(len);
    var q := len / 64;
    if len % 64 <= 55 {
      BetweenMultiples(len + 1 + y + 8, q);
    } else {
      BetweenMultiples(len + 1 + y + 8, q + 1);
    }
  }

  lemma BetweenMultiples(t: nat, k: nat)
    requires 64 * k < t < 64 * (k + 1)
    ensures t % 64 != 0
  {
  }

  /** The rounded-up byte count of `pad` is one more than `Fill`, so never zero, and the decrement cannot underflow. */
  lemma ZeroCountClosedForm(len: nat)
    ensures CeilDiv(RequiredPaddingBits(len), 8) == Fill(len) + 1
  {
    BitsResidue(len);
    CeilOfResidue(len % 64);
  }

  lemma BitsResidue(len: nat)
    ensures Wrap(Wrap(len * 8) + 1 + 64) % 512 == (8 * (len % 64) + 65) % 512
  {
    var w := Wrap(len * 8);
    WrapKeepsResidue(len * 8);
    WrapKeepsResidue(w + 1 + 64);
    SameResidueAdd(w, len * 8);
    BitLengthResidue(len);
  }

  lemma BitLengthResidue(len: nat)
    ensures (len * 8 + 65) % 512 == (8 * (len % 64) + 65) % 512
  {
    assert len * 8 + 65 == 512 * (len / 64) + (8 * (len % 64) + 65);
  }

  lemma SameResidueAdd(x: nat, y: nat)
    requires x % 512 == y % 512
    ensures (x + 65) % 512 == (y + 65) % 512
  {
    var r := x % 512 + 65;
    assert x + 65 == 512 * (x / 512) + r;
    assert y + 65 == 512 * (y / 512) + r;
    MultipleAdd(x / 512, r);
    MultipleAdd(y / 512, r);
  }

  lemma MultipleAdd(k: nat, r: nat)
    ensures (512 * k + r) % 512 == r % 512
  {
  }

  lemma CeilOfResidue(q: nat)
    requires q < 64
    ensures CeilDiv(512 - (8 * q + 65) % 512, 8) == if q <= 55 then 56 - q else 120 - q
  {
    if q <= 55 {
      assert (8 * q + 65) % 512 == 8 * q + 65;
    } else {
      assert (8 * q + 65) % 512 == 8 * q + 65 - 512;
    }
  }

  /** 2^64 is a multiple of 512, so reducing modulo 2^64 keeps the residue modulo 512. */
  lemma WrapKeepsResidue(x: nat)
    ensures Wrap(x) % 512 == x % 512
  {
    var d := x / UsizeModulus;
    assert x == UsizeModulus * d + Wrap(x);
    assert x == 512 * (0x80_0000_0000_0000 * d) + Wrap(x);
  }

  /**
   * `pad` exactly as written: the bit length and the sum giving `required_padding_bits` are
   * usize values, so for messages of 2^61 bytes or more they wrap around.
   */
  function PadAsWritten(m: seq<byte>): (p: seq<byte>)
    ensures |p| % 64 == 0 && |m| + 9 <= |p| < |m| + 9 + 64
    ensures p[..|m|] == m
    ensures p[|m|] == 0x80
    ensures forall i :: |m| < i < |p| - 8 ==> p[i] == 0
    ensures p[|p| - 8..] == ToBE(Wrap(|m| * 8), 8)
  {
    m + [0x80] + Zeros(ZeroCount(|m|)) + ToBE(Wrap(|m| * 8), 8)
  }

  /** `pad` on the messages whose bit length fits in 64 bits. */
  function Pad(m: seq<byte>): (p: seq<byte>)
    requires |m| < LengthLimit
    ensures |p| % 64 == 0 && |p| >= |m| + 9
    ensures |p| < |m| + 9 + 64
    ensures p[..|m|] == m
    ensures p[|m|] == 0x80
    ensures forall i :: |m| < i < |p| - 8 ==> p[i] == 0
    ensures p[|p| - 8..] == ToBE(|m| * 8, 8)
  {
    WrapSmall(|m| * 8);
    var p := PadAsWritten(m);
    assert p[|p| - 8..] == ToBE(|m| * 8, 8);
    p
  }

  lemma WrapSmall(x: nat)
    requires x < UsizeModulus
    ensures Wrap(x) == x
  {
  }

  /** Reads the message back out of a padded message through its length field. */
  function Unpad(p: seq<byte>): Option<seq<byte>>
  {
    if |p| < 8 then None
    else
      var bits := FromBE(p[|p| - 8..]);
      if bits % 8 == 0 && bits / 8 + 9 <= |p| then Some(p[..bits / 8]) else None
  }

  lemma Pow256Eight()
    ensures Pow256(8) == UsizeModulus
  {
    assert Pow256(0) == 1;
    assert Pow256(1) == 0x100;
    assert Pow256(2) == 0x1_0000;
    assert Pow256(3) == 0x100_0000;
    assert Pow256(4) == 0x1_0000_0000;
    assert Pow256(5) == 0x100_0000_0000;
    assert Pow256(6) == 0x1_0000_0000_0000;
    assert Pow256(7) == 0x100_0000_0000_0000;
  }

  /** The length field of a padded message gives the message back. */
  lemma PadRecoversMessage(m: seq<byte>)
    requires |m| < LengthLimit
    ensures Unpad(Pad(m)) == Some(m)
  {
    var p := Pad(m);
    var bits := |m| * 8;
    assert FromBE(p[|p| - 8..]) == bits by {
      Pow256Eight();
      FromToBE(bits, 8);
    }
    assert bits % 8 == 0 && bits / 8 == |m|;
  }

  /**
   * A message of 2^61 bytes: its bit length 2^64 wraps to 0, so the padded
   * message claims to hold the empty message.
   */
  lemma PadAsWrittenLosesLength(m: seq<byte>)
    requires |m| == LengthLimit
    ensures Unpad(PadAsWritten(m)) == Some([])
    ensures Unpad(PadAsWritten(m)) != Some(m)
  {
    var p := PadAsWritten(m);
    assert Wrap(|m| * 8) == 0;
    assert p[|p| - 8..] == ToBE(0, 8);
    Pow256Eight();
    FromToBE(0, 8);
  }

  /** `pad` with the guard its 64-bit length field needs. */
  function PadChecked(m: seq<byte>): (r: Result<seq<byte>>)
    ensures r.Success? <==> |m| < LengthLimit
    ensures r.Failure? ==> r.error == LengthOverflow
    ensures r.Success? ==> Unpad(r.value) == Some(m) && |r.value| % 64 == 0
  {
    if |m| >= LengthLimit then Failure(LengthOverflow)
    else
      PadRecoversMessage(m);
      Success(Pad(m))
  }

  /** The padded length is the least multiple of 64 that leaves room for the marker and the length field. */
  lemma PadLength(m: seq<byte>)
    requires |m| < LengthLimit
    ensures |Pad(m)| == 64 * ((|m| + 8) / 64 + 1)
  {
    var n := |Pad(m)|;
    assert n == |m| + 9 + ZeroCount(|m|);
    ZeroCountValue(|m|);
    var q := |m| / 64;
    if |m| % 64 <= 55 {
      assert n == 64 * (q + 1) && (|m| + 8) / 64 == q;
    } else {
      assert n == 64 * (q + 2) && (|m| + 8) / 64 == q + 1;
    }
  }

  /** A message of at most 55 bytes pads to one block, 56 to 119 bytes to two. */
  lemma PadBlockBoundaries(m: seq<byte>)
    requires |m| < LengthLimit
    ensures |m| <= 55 ==> |Pad(m)| == 64
    ensures 56 <= |m| <= 119 ==> |Pad(m)| == 128
  {
    PadLength(m);
    if |m| <= 55 {
      assert (|m| + 8) / 64 == 0;
    } else if |m| <= 119 {
      assert (|m| + 8) / 64 == 1;
    }
  }

  const HelloWorld: seq<byte> := [0x68, 0x65, 0x6c, 0x6c, 0x6f, 0x20, 0x77, 0x6f, 0x72, 0x6c, 0x64]

  /** "hello world" pads to its 11 bytes, 0x80, 44 zero bytes and the bit length 88 = 0x58. */
  lemma PadHelloWorld()
    ensures Pad(HelloWorld) == HelloWorld + [0x80] + Zeros(44) + [0, 0, 0, 0, 0, 0, 0, 0x58]
  {
    var p := Pad(HelloWorld);
    PadLength(HelloWorld);
    assert |p| == 64;
    SmallToBE(88, 8);
    assert p[56..] == Zeros(7) + [0x58];
    assert p[12..56] == Zeros(44) by {
      forall i | 0 <= i < 44
        ensures p[12..56][i] == 0
      {
        assert p[12..56][i] == p[12 + i];
      }
    }
    assert p == p[..11] + [p[11]] + p[12..56] + p[56..];
  }

  /** A number below 256 is encoded as zero bytes followed by itself. */
  lemma {:induction false} SmallToBE(n: nat, k: nat)
    requires n < 256 && k > 0
    ensures ToBE(n, k) == Zeros(k - 1) + [n as byte]
  {
    if k > 1 {
      SmallToBE(0, k - 1);
      assert ToBE(n, k) == ToBE(0, k - 1) + [n as byte];
      assert Zeros(k - 2) + [0 as byte] == Zeros(k - 1);
    }
  }
}
