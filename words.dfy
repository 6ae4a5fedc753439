/**
 * Bytes and 32-bit words as SHA-256 (FIPS PUB 180-4) uses them: `u8` and
 * `u32` values, the wrap-around addition of section 3.2, the logical
 * functions of section 4.1.2 (built from the circular right rotation ROTR,
 * `u32::rotate_right`), and big-endian conversions between words, integers
 * and byte sequences.
 */
module Words {
  import opened Bitwise

  newtype byte = x: int | 0 <= x < 0x100

  newtype Word = x: int | 0 <= x < 0x1_0000_0000

  const WordModulus: int := 0x1_0000_0000

  /** `u32::wrapping_add`: the sum modulo 2^32. */
  function Add(x: Word, y: Word): (r: Word)
    ensures r as int == (x as int + y as int) % WordModulus
  {
    var s := x as int + y as int;
    if s < WordModulus then s as Word else (s - WordModulus) as Word
  }

  /** `u32::wrapping_sub`: the difference modulo 2^32. */
  function Sub(x: Word, y: Word): (r: Word)
    ensures r as int == (x as int - y as int) % WordModulus
  {
    var d := x as int - y as int;
    if d >= 0 then d as Word else (d + WordModulus) as Word
  }

  /** Subtraction undoes addition, whichever operand is taken away. */
  lemma SubAdd(x: Word, y: Word)
    ensures Sub(Add(x, y), y) == x
    ensures Sub(Add(x, y), x) == y
  {
  }

  /** Addition undoes subtraction. */
  lemma AddSub(x: Word, y: Word)
    ensures Add(Sub(x, y), y) == x
  {
  }

  /** 2^32: every value of the low 32 bits is a Word. */
  lemma Pow2Word()
    ensures Pow2(32) == WordModulus
  {
    assert Pow2(2) == 4;
    Pow2Add(2, 2);
    Pow2Add(4, 4);
    Pow2Add(8, 8);
    Pow2Add(16, 16);
  }

  /** `^` on u32. */
  function BitXor(x: Word, y: Word): Word
  {
    Pow2Word();
    XorBound(x as nat, y as nat, 32);
    Xor(x as nat, y as nat, 32) as Word
  }

  /** `&` on u32. */
  function BitAnd(x: Word, y: Word): Word
  {
    Pow2Word();
    AndBound(x as nat, y as nat, 32);
    And(x as nat, y as nat, 32) as Word
  }

  /** `!` on u32. */
  function BitNot(x: Word): Word
  {
    Pow2Word();
    NotBound(x as nat, 32);
    Not(x as nat, 32) as Word
  }

  /** `u32::rotate_right`: the low n bits move to the top, the rest move down n places. */
  function RotateRight(x: Word, n: nat): Word
    requires 0 < n < 32
  {
    RotateRightBound(x, n);
    (Shr(x as nat, n) + Shl(Low(x as nat, n), 32 - n)) as Word
  }

  lemma RotateRightBound(x: Word, n: nat)
    requires 0 < n < 32
    ensures Shr(x as nat, n) + Shl(Low(x as nat, n), 32 - n) < WordModulus
  {
    Pow2Word();
    ShrBound(x as nat, n, 32 - n);
    var lo, p, q := Low(x as nat, n), Pow2(32 - n), Pow2(n);
    LowBound(x as nat, n);
    ShlMul(lo, 32 - n);
    Pow2Add(n, 32 - n);
    LowerPartBound(lo, q, p);
  }

  /** A number below q, scaled by p, leaves room for one more p below q * p. */
  lemma LowerPartBound(a: nat, q: nat, p: nat)
    requires a < q
    ensures a * p + p <= q * p
  {
    assert a * p + p == (a + 1) * p;
  }

  /** `>>` on u32. */
  function ShiftRight(x: Word, n: nat): Word
  {
    ShrAtMost(x as nat, n);
    Shr(x as nat, n) as Word
  }

  /** Bit i of a rotated word is bit i + n of the word, counted round the 32 positions. */
  lemma RotateRightBit(x: Word, n: nat, i: nat)
    requires 0 < n < 32 && i < 32
    ensures Bit(RotateRight(x, n) as nat, i) <==> Bit(x as nat, (i + n) % 32)
  {
    var hi, lo := Shr(x as nat, n), Low(x as nat, n);
    assert hi < Pow2(32 - n) by {
      Pow2Word();
      ShrBound(x as nat, n, 32 - n);
    }
    ShlAddBit(hi, lo, 32 - n, i);
    if i < 32 - n {
      assert (i + n) % 32 == i + n;
      ShrBit(x as nat, n, i);
    } else {
      assert (i + n) % 32 == i - (32 - n);
      LowBit(x as nat, n, i - (32 - n));
    }
  }

  /** A word has no bits set at position 32 or above. */
  lemma WordHighBits(x: Word, i: nat)
    requires i >= 32
    ensures !Bit(x as nat, i)
  {
    Pow2Word();
    BitBeyond(x as nat, 32, i);
  }

  /** Bit i of a word shifted right by n is bit i + n of the word; zeros are shifted in at the top. */
  lemma ShiftRightBit(x: Word, n: nat, i: nat)
    ensures Bit(ShiftRight(x, n) as nat, i) <==> i + n < 32 && Bit(x as nat, i + n)
  {
    ShrBit(x as nat, n, i);
    if i + n >= 32 {
      WordHighBits(x, i + n);
    }
  }

  /** Ch(e, f, g) of section 4.1.2, as `one_shot` computes `ch`: (e & f) ^ (!e & g). */
  function Ch(e: Word, f: Word, g: Word): Word
  {
    BitXor(BitAnd(e, f), BitAnd(BitNot(e), g))
  }

  /** Ch chooses: where a bit of e is set the bit comes from f, elsewhere from g. */
  lemma ChBit(e: Word, f: Word, g: Word, i: nat)
    requires i < 32
    ensures Bit(Ch(e, f, g) as nat, i) <==> if Bit(e as nat, i) then Bit(f as nat, i) else Bit(g as nat, i)
  {
    var ef, ng := BitAnd(e, f), BitAnd(BitNot(e), g);
    XorBit(ef as nat, ng as nat, 32, i);
    AndBit(e as nat, f as nat, 32, i);
    AndBit(BitNot(e) as nat, g as nat, 32, i);
    NotBit(e as nat, 32, i);
  }

  /** Maj(a, b, c) of section 4.1.2, as `one_shot` computes `maj`: (a & b) ^ (a & c) ^ (b & c). */
  function Maj(a: Word, b: Word, c: Word): Word
  {
    BitXor(BitXor(BitAnd(a, b), BitAnd(a, c)), BitAnd(b, c))
  }

  /** Every bit of Maj is the majority of the three corresponding bits. */
  lemma MajBit(a: Word, b: Word, c: Word, i: nat)
    requires i < 32
    ensures Bit(Maj(a, b, c) as nat, i) <==>
      var (x, y, z) := (Bit(a as nat, i), Bit(b as nat, i), Bit(c as nat, i));
      (x && y) || (x && z) || (y && z)
  {
    var ab, ac, bc := BitAnd(a, b), BitAnd(a, c), BitAnd(b, c);
    XorBit(BitXor(ab, ac) as nat, bc as nat, 32, i);
    XorBit(ab as nat, ac as nat, 32, i);
    AndBit(a as nat, b as nat, 32, i);
    AndBit(a as nat, c as nat, 32, i);
    AndBit(b as nat, c as nat, 32, i);
  }

  /** Σ0 of section 4.1.2 (`s0` of the rounds in `one_shot`), applied to working variable a. */
  function BigSigma0(x: Word): Word
  {
    BitXor(BitXor(RotateRight(x, 2), RotateRight(x, 13)), RotateRight(x, 22))
  }

  /** Σ1 of section 4.1.2 (`s1` of the rounds in `one_shot`), applied to working variable e. */
  function BigSigma1(x: Word): Word
  {
    BitXor(BitXor(RotateRight(x, 6), RotateRight(x, 11)), RotateRight(x, 25))
  }

  /** σ0 of section 4.1.2 (`s0` of the schedule extension in `one_shot`). */
  function SmallSigma0(x: Word): Word
  {
    BitXor(BitXor(RotateRight(x, 7), RotateRight(x, 18)), ShiftRight(x, 3))
  }

  /** σ1 of section 4.1.2 (`s1` of the schedule extension in `one_shot`). */
  function SmallSigma1(x: Word): Word
  {
    BitXor(BitXor(RotateRight(x, 17), RotateRight(x, 19)), ShiftRight(x, 10))
  }

  /** Bit i of Σ0(x) is the exclusive or of bits i + 2, i + 13 and i + 22 of x, round the word. */
  lemma BigSigma0Bit(x: Word, i: nat)
    requires i < 32
    ensures Bit(BigSigma0(x) as nat, i) <==>
      ((Bit(x as nat, (i + 2) % 32) != Bit(x as nat, (i + 13) % 32)) != Bit(x as nat, (i + 22) % 32))
  {
    var r2, r13, r22 := RotateRight(x, 2), RotateRight(x, 13), RotateRight(x, 22);
    XorBit(BitXor(r2, r13) as nat, r22 as nat, 32, i);
    XorBit(r2 as nat, r13 as nat, 32, i);
    RotateRightBit(x, 2, i);
    RotateRightBit(x, 13, i);
    RotateRightBit(x, 22, i);
  }

  /** Bit i of Σ1(x) is the exclusive or of bits i + 6, i + 11 and i + 25 of x, round the word. */
  lemma BigSigma1Bit(x: Word, i: nat)
    requires i < 32
    ensures Bit(BigSigma1(x) as nat, i) <==>
      ((Bit(x as nat, (i + 6) % 32) != Bit(x as nat, (i + 11) % 32)) != Bit(x as nat, (i + 25) % 32))
  {
    var r6, r11, r25 := RotateRight(x, 6), RotateRight(x, 11), RotateRight(x, 25);
    XorBit(BitXor(r6, r11) as nat, r25 as nat, 32, i);
    XorBit(r6 as nat, r11 as nat, 32, i);
    RotateRightBit(x, 6, i);
    RotateRightBit(x, 11, i);
    RotateRightBit(x, 25, i);
  }

  /** Bit i of σ0(x): bits i + 7 and i + 18 round the word, and bit i + 3 shifted down, zero for i >= 29. */
  lemma SmallSigma0Bit(x: Word, i: nat)
    requires i < 32
    ensures Bit(SmallSigma0(x) as nat, i) <==>
      ((Bit(x as nat, (i + 7) % 32) != Bit(x as nat, (i + 18) % 32)) != (i < 29 && Bit(x as nat, i + 3)))
  {
    var r7, r18, s3 := RotateRight(x, 7), RotateRight(x, 18), ShiftRight(x, 3);
    XorBit(BitXor(r7, r18) as nat, s3 as nat, 32, i);
    XorBit(r7 as nat, r18 as nat, 32, i);
    RotateRightBit(x, 7, i);
    RotateRightBit(x, 18, i);
    ShiftRightBit(x, 3, i);
  }

  /** Bit i of σ1(x): bits i + 17 and i + 19 round the word, and bit i + 10 shifted down, zero for i >= 22. */
  lemma SmallSigma1Bit(x: Word, i: nat)
    requires i < 32
    ensures Bit(SmallSigma1(x) as nat, i) <==>
      ((Bit(x as nat, (i + 17) % 32) != Bit(x as nat, (i + 19) % 32)) != (i < 22 && Bit(x as nat, i + 10)))
  {
    var r17, r19, s10 := RotateRight(x, 17), RotateRight(x, 19), ShiftRight(x, 10);
    XorBit(BitXor(r17, r19) as nat, s10 as nat, 32, i);
    XorBit(r17 as nat, r19 as nat, 32, i);
    RotateRightBit(x, 17, i);
    RotateRightBit(x, 19, i);
    ShiftRightBit(x, 10, i);
  }

  /** `u32::from_be_bytes`: the first byte is the most significant. */
  function WordFromBytes(bs: seq<byte>): Word
    requires |bs| == 4
  {
    (bs[0] as int * 0x100_0000 + bs[1] as int * 0x1_0000 + bs[2] as int * 0x100 + bs[3] as int) as Word
  }

  /** `u32::to_be_bytes`. */
  function WordToBytes(w: Word): (r: seq<byte>)
    ensures |r| == 4
  {
    var x := w as int;
    [(x / 0x100_0000) as byte, (x / 0x1_0000 % 0x100) as byte, (x / 0x100 % 0x100) as byte, (x % 0x100) as byte]
  }

  lemma WordBytesRoundTrip(w: Word)
    ensures WordFromBytes(WordToBytes(w)) == w
  {
    var x := w as int;
    var q1, q2, q3 := x / 0x100, x / 0x1_0000, x / 0x100_0000;
    assert q2 == q1 / 0x100 && q3 == q2 / 0x100;
    assert x == q1 * 0x100 + x % 0x100;
    assert q1 == q2 * 0x100 + q1 % 0x100;
    assert q2 == q3 * 0x100 + q2 % 0x100;
  }

  lemma BytesWordRoundTrip(bs: seq<byte>)
    requires |bs| == 4
    ensures WordToBytes(WordFromBytes(bs)) == bs
  {
    var (b0, b1, b2, b3) := (bs[0] as int, bs[1] as int, bs[2] as int, bs[3] as int);
    var x := WordFromBytes(bs) as int;
    var y, z := b0 * 0x1_0000 + b1 * 0x100 + b2, b0 * 0x100 + b1;
    DivMod256(y, b3);
    DivMod256(z, b2);
    DivMod256(b0, b1);
    assert x == y * 0x100 + b3;
    assert x / 0x1_0000 == z by {
      assert x == z * 0x1_0000 + (b2 * 0x100 + b3);
    }
    assert x / 0x100_0000 == b0 by {
      assert x == b0 * 0x100_0000 + (b1 * 0x1_0000 + b2 * 0x100 + b3);
    }
  }

  lemma DivMod256(q: int, r: int)
    requires q >= 0 && 0 <= r < 0x100
    ensures (q * 0x100 + r) / 0x100 == q && (q * 0x100 + r) % 0x100 == r
  {
  }

  /** A byte sequence read as consecutive big-endian words. */
  function WordsOf(bs: seq<byte>): (ws: seq<Word>)
    requires |bs| % 4 == 0
    ensures |ws| == |bs| / 4
    ensures forall j :: 0 <= j < |ws| ==> ws[j] == WordFromBytes(bs[4 * j .. 4 * j + 4])
  {
    seq(|bs| / 4, j requires 0 <= j < |bs| / 4 => WordFromBytes(bs[4 * j .. 4 * j + 4]))
  }

  /** Words written one after another, each as 4 big-endian bytes. */
  function BytesOf(ws: seq<Word>): (bs: seq<byte>)
    ensures |bs| == 4 * |ws|
  {
    if ws == [] then [] else BytesOf(ws[..|ws| - 1]) + WordToBytes(ws[|ws| - 1])
  }

  /** Word j of ws occupies bytes 4j .. 4j+4 of `BytesOf(ws)`. */
  lemma {:induction false} BytesOfAt(ws: seq<Word>, j: nat)
    requires j < |ws|
    ensures BytesOf(ws)[4 * j .. 4 * j + 4] == WordToBytes(ws[j])
  {
    var init := ws[..|ws| - 1];
    assert BytesOf(ws) == BytesOf(init) + WordToBytes(ws[|ws| - 1]);
    if j < |ws| - 1 {
      BytesOfAt(init, j);
      assert init[j] == ws[j];
    }
  }

  /** Reading back what `BytesOf` wrote gives the words. */
  lemma WordsOfBytesOf(ws: seq<Word>)
    ensures WordsOf(BytesOf(ws)) == ws
  {
    var bs := BytesOf(ws);
    forall j | 0 <= j < |ws|
      ensures WordsOf(bs)[j] == ws[j]
    {
      BytesOfAt(ws, j);
      WordBytesRoundTrip(ws[j]);
    }
  }

  /** Writing out the words read from a byte sequence gives the bytes. */
  lemma {:induction false} BytesOfWordsOf(bs: seq<byte>)
    requires |bs| % 4 == 0
    ensures BytesOf(WordsOf(bs)) == bs
  {
    if bs != [] {
      var n := |bs|;
      var ws := WordsOf(bs);
      WordsOfInit(bs);
      BytesOfWordsOf(bs[..n - 4]);
      WordsOfLast(bs);
      assert BytesOf(ws) == BytesOf(ws[..|ws| - 1]) + WordToBytes(ws[|ws| - 1]);
      assert bs == bs[..n - 4] + bs[n - 4..];
    }
  }

  /** Dropping the last 4 bytes drops the last word. */
  lemma WordsOfInit(bs: seq<byte>)
    requires |bs| % 4 == 0 && |bs| >= 4
    ensures |bs[..|bs| - 4]| % 4 == 0
    ensures WordsOf(bs)[..|bs| / 4 - 1] == WordsOf(bs[..|bs| - 4])
  {
    var m := |bs| / 4;
    assert |bs| == 4 * m;
    var init := bs[..|bs| - 4];
    assert |init| == 4 * (m - 1);
    forall j | 0 <= j < m - 1
      ensures WordsOf(bs)[j] == WordsOf(init)[j]
    {
      assert init[4 * j .. 4 * j + 4] == bs[4 * j .. 4 * j + 4];
    }
  }

  /** The last word written out is the last 4 bytes. */
  lemma WordsOfLast(bs: seq<byte>)
    requires |bs| % 4 == 0 && |bs| >= 4
    ensures WordToBytes(WordsOf(bs)[|bs| / 4 - 1]) == bs[|bs| - 4..]
  {
    var m := |bs| / 4;
    assert |bs| == 4 * m;
    assert WordsOf(bs)[m - 1] == WordFromBytes(bs[|bs| - 4..]);
    BytesWordRoundTrip(bs[|bs| - 4..]);
  }

  /** 256 to the power k: the number of values k bytes can hold. */
  function Pow256(k: nat): (p: nat)
    ensures p > 0
  {
    if k == 0 then 1 else 256 * Pow256(k - 1)
  }

  /** The k-byte big-endian encoding of n, keeping its low 8k bits (`to_be_bytes`). */
  function ToBE(n: nat, k: nat): (r: seq<byte>)
    ensures |r| == k
  {
    if k == 0 then [] else ToBE(n / 256, k - 1) + [(n % 256) as byte]
  }

  /** The number a big-endian byte sequence denotes. */
  function FromBE(bs: seq<byte>): nat
  {
    if bs == [] then 0 else FromBE(bs[..|bs| - 1]) * 256 + bs[|bs| - 1] as nat
  }

  /** Encoding a number that fits in k bytes loses nothing. */
  lemma {:induction false} FromToBE(n: nat, k: nat)
    requires n < Pow256(k)
    ensures FromBE(ToBE(n, k)) == n
  {
    if k == 0 {
      assert n == 0;
      assert ToBE(n, k) == [];
    } else {
      QuotientBelow(n, k);
      FromToBE(n / 256, k - 1);
      FromToBEStep(n, k);
    }
  }

  /** The number encoded in k bytes is 256 times the one in the first k - 1, plus the last byte. */
  lemma FromToBEStep(n: nat, k: nat)
    requires k > 0
    ensures FromBE(ToBE(n, k)) == FromBE(ToBE(n / 256, k - 1)) * 256 + n % 256
  {
    var bs := ToBE(n, k);
    ToBELast(n, k);
    assert FromBE(bs) == FromBE(bs[..k - 1]) * 256 + bs[k - 1] as nat;
  }

  lemma QuotientBelow(n: nat, k: nat)
    requires k > 0 && n < Pow256(k)
    ensures n / 256 < Pow256(k - 1)
  {
    assert Pow256(k) == 256 * Pow256(k - 1);
  }

  /** The last byte of the encoding is n mod 256; the bytes before it encode n / 256. */
  lemma ToBELast(n: nat, k: nat)
    requires k > 0
    ensures ToBE(n, k)[..k - 1] == ToBE(n / 256, k - 1)
    ensures ToBE(n, k)[k - 1] as nat == n % 256
  {
    assert ToBE(n, k) == ToBE(n / 256, k - 1) + [(n % 256) as byte];
  }
}
