/**
 * The SHA-256 hash computation of FIPS PUB 180-4 section 6.2.2, stated as
 * functions: the message schedule of a 64-byte block, the 64 rounds over the
 * working variables a..h, the compression that adds them back into the hash
 * value, the chaining of blocks in order, and the digest.
 */
module Sha256Spec {
  import opened Words
  import opened Constants
  import opened Padding

  /** Word i of w follows the schedule recurrence of step 1. */
  predicate Recurrence(w: seq<Word>, i: nat)
    requires 16 <= i < |w|
  {
    w[i] == Add(Add(Add(w[i - 16], SmallSigma0(w[i - 15])), w[i - 7]), SmallSigma1(w[i - 2]))
  }

  /** The word the recurrence puts after the words computed so far. */
  function NextWord(w: seq<Word>): Word
    requires |w| >= 16
  {
    Add(Add(Add(w[|w| - 16], SmallSigma0(w[|w| - 15])), w[|w| - 7]), SmallSigma1(w[|w| - 2]))
  }

  /** Extends a partial schedule to 64 words; the words already there stay. */
  function ExtendSchedule(w: seq<Word>): (r: seq<Word>)
    requires 16 <= |w| <= 64
    ensures |r| == 64
    ensures r[..|w|] == w
    ensures forall i :: |w| <= i < 64 ==> Recurrence(r, i)
    decreases 64 - |w|
  {
    if |w| == 64 then w
    else
      var r := ExtendSchedule(w + [NextWord(w)]);
      assert r[..|w|] == (r[..|w| + 1])[..|w|];
      r
  }

  /** The message schedule W0 .. W63 of one 64-byte block. */
  function Schedule(block: seq<byte>): (w: seq<Word>)
    requires |block| == 64
    ensures |w| == 64
    ensures w[..16] == WordsOf(block)
    ensures forall i :: 16 <= i < 64 ==> Recurrence(w, i)
  {
    ExtendSchedule(WordsOf(block))
  }

  /** The first 16 schedule words are the block itself: writing them out gives it back. */
  lemma ScheduleRecoversBlock(block: seq<byte>)
    requires |block| == 64
    ensures BytesOf(Schedule(block)[..16]) == block
  {
    BytesOfWordsOf(block);
  }

  /** The block's words and the recurrence leave no freedom: they determine the schedule. */
  lemma ScheduleDetermined(block: seq<byte>, w: seq<Word>)
    requires |block| == 64 && |w| == 64
    requires w[..16] == WordsOf(block)
    requires forall i :: 16 <= i < 64 ==> Recurrence(w, i)
    ensures w == Schedule(block)
  {
    var s := Schedule(block);
    var n := 16;
    assert w[..n] == s[..n];
    while n < 64
      invariant 16 <= n <= 64
      invariant w[..n] == s[..n]
    {
      assert Recurrence(w, n) && Recurrence(s, n);
      assert w[n - 16] == s[n - 16] && w[n - 15] == s[n - 15];
      assert w[n - 7] == s[n - 7] && w[n - 2] == s[n - 2];
      assert w[..n + 1] == w[..n] + [w[n]];
      assert s[..n + 1] == s[..n] + [s[n]];
      n := n + 1;
    }
    assert w == w[..64] && s == s[..64];
  }

  /** The eight working variables a..h. */
  datatype Working = Working(a: Word, b: Word, c: Word, d: Word, e: Word, f: Word, g: Word, h: Word)

  /** Step 2: the working variables start as the current hash value. */
  function Seed(hash: seq<Word>): Working
    requires |hash| == 8
  {
    Working(hash[0], hash[1], hash[2], hash[3], hash[4], hash[5], hash[6], hash[7])
  }

  function AsWords(v: Working): (r: seq<Word>)
    ensures |r| == 8
  {
    [v.a, v.b, v.c, v.d, v.e, v.f, v.g, v.h]
  }

  /** T1 = h + Σ1(e) + Ch(e, f, g) + Kt + Wt. */
  function Temp1(v: Working, kt: Word, wt: Word): Word
  {
    Add(Add(Add(Add(v.h, BigSigma1(v.e)), Ch(v.e, v.f, v.g)), kt), wt)
  }

  /** T2 = Σ0(a) + Maj(a, b, c). */
  function Temp2(v: Working): Word
  {
    Add(BigSigma0(v.a), Maj(v.a, v.b, v.c))
  }

  /**
   * One round of step 3: b, c, d and f, g, h take the values of a, b, c and
   * e, f, g; the new a is T1 on top of T2 and the new e is T1 on top of d.
   */
  function Round(v: Working, kt: Word, wt: Word): (r: Working)
    ensures r.b == v.a && r.c == v.b && r.d == v.c
    ensures r.f == v.e && r.g == v.f && r.h == v.g
    ensures Sub(r.a, Temp2(v)) == Temp1(v, kt, wt)
    ensures Sub(r.e, v.d) == Temp1(v, kt, wt)
  {
    var t1 := Temp1(v, kt, wt);
    var t2 := Temp2(v);
    SubAdd(t1, t2);
    SubAdd(v.d, t1);
    Working(Add(t1, t2), v.a, v.b, v.c, Add(v.d, t1), v.e, v.f, v.g)
  }

  /**
   * The round run backwards: a, b, c, e, f and g of the old state are read
   * off the new one, then T2, T1, d and h follow by subtraction.
   */
  function UndoRound(v: Working, kt: Word, wt: Word): Working
  {
    var prev := Working(v.b, v.c, v.d, 0, v.f, v.g, v.h, 0);
    var t1 := Sub(v.a, Temp2(prev));
    var h := Sub(Sub(Sub(Sub(t1, wt), kt), Ch(prev.e, prev.f, prev.g)), BigSigma1(prev.e));
    prev.(d := Sub(v.e, t1), h := h)
  }

  /** Given Kt and Wt, a round is a bijection on the working variables. */
  lemma RoundInvertible(v: Working, kt: Word, wt: Word)
    ensures UndoRound(Round(v, kt, wt), kt, wt) == v
    ensures Round(UndoRound(v, kt, wt), kt, wt) == v
  {
    var t1, t2 := Temp1(v, kt, wt), Temp2(v);
    SubAdd(t1, t2);
    SubAdd(v.d, t1);
    var s1 := Add(v.h, BigSigma1(v.e));
    var s2 := Add(s1, Ch(v.e, v.f, v.g));
    var s3 := Add(s2, kt);
    SubAdd(s3, wt);
    SubAdd(s2, kt);
    SubAdd(s1, Ch(v.e, v.f, v.g));
    SubAdd(v.h, BigSigma1(v.e));
    UndoRoundRedoes(v, kt, wt);
  }

  lemma UndoRoundRedoes(v: Working, kt: Word, wt: Word)
    ensures Round(UndoRound(v, kt, wt), kt, wt) == v
  {
    var u := UndoRound(v, kt, wt);
    var t2 := Temp2(u);
    var t1 := Sub(v.a, t2);
    var r1 := Sub(t1, wt);
    var r2 := Sub(r1, kt);
    var r3 := Sub(r2, Ch(u.e, u.f, u.g));
    AddSub(r3, BigSigma1(u.e));
    AddSub(r2, Ch(u.e, u.f, u.g));
    AddSub(r1, kt);
    AddSub(t1, wt);
    assert Temp1(u, kt, wt) == t1;
    AddSub(v.a, t2);
    AddSub(v.e, t1);
  }

  /** The working variables after the first n rounds over schedule w. */
  function Rounds(v: Working, w: seq<Word>, n: nat): Working
    requires |w| == 64 && n <= 64
  {
    if n == 0 then v else Round(Rounds(v, w, n - 1), K[n - 1], w[n - 1])
  }

  /** Rounds n-1 down to 0 undone, in that order. */
  function UndoRounds(v: Working, w: seq<Word>, n: nat): Working
    requires |w| == 64 && n <= 64
    decreases n
  {
    if n == 0 then v else UndoRounds(UndoRound(v, K[n - 1], w[n - 1]), w, n - 1)
  }

  /** The rounds lose nothing: undoing the first n rounds in reverse order recovers the working variables they started from. */
  lemma {:induction false} RoundsInvertible(v: Working, w: seq<Word>, n: nat)
    requires |w| == 64 && n <= 64
    ensures UndoRounds(Rounds(v, w, n), w, n) == v
  {
    if n > 0 {
      var u, kt, wt := Rounds(v, w, n - 1), K[n - 1], w[n - 1];
      RoundInvertible(u, kt, wt);
      assert Rounds(v, w, n) == Round(u, kt, wt);
      assert UndoRounds(Round(u, kt, wt), w, n) == UndoRounds(UndoRound(Round(u, kt, wt), kt, wt), w, n - 1);
      RoundsInvertible(v, w, n - 1);
    }
  }

  /** Step 4: each word of the hash value plus the matching working variable after 64 rounds. */
  function Compress(hash: seq<Word>, w: seq<Word>): (r: seq<Word>)
    requires |hash| == 8 && |w| == 64
    ensures |r| == 8
  {
    var v := AsWords(Rounds(Seed(hash), w, |w|));
    seq(8, j requires 0 <= j < 8 => Add(hash[j], v[j]))
  }

  /**
   * Subtracting the incoming hash value from the compressed one and undoing
   * the 64 rounds gives the incoming hash value back as working variables.
   */
  lemma CompressUndoesToSeed(hash: seq<Word>, w: seq<Word>)
    requires |hash| == 8 && |w| == 64
    ensures var out := Compress(hash, w);
      UndoRounds(Seed(seq(8, j requires 0 <= j < 8 => Sub(out[j], hash[j]))), w, |w|) == Seed(hash)
  {
    var out := Compress(hash, w);
    var v := Rounds(Seed(hash), w, |w|);
    var diff := seq(8, j requires 0 <= j < 8 => Sub(out[j], hash[j]));
    forall j | 0 <= j < 8
      ensures diff[j] == AsWords(v)[j]
    {
      SubAdd(hash[j], AsWords(v)[j]);
    }
    assert Seed(diff) == v;
    RoundsInvertible(Seed(hash), w, |w|);
  }

  /** One block folded into the hash value. */
  function ProcessBlock(hash: seq<Word>, block: seq<byte>): (r: seq<Word>)
    requires |hash| == 8 && |block| == 64
    ensures |r| == 8
  {
    Compress(hash, Schedule(block))
  }

  /**
   * The blocks of p, taken in order, folded into `hash` by `step`: the last
   * block is processed on the value the blocks before it left.
   */
  function Fold(step: (seq<Word>, seq<byte>) -> seq<Word>, hash: seq<Word>, p: seq<byte>): seq<Word>
    requires |p| % 64 == 0
    decreases |p|
  {
    if p == [] then hash else step(Fold(step, hash, p[..|p| - 64]), p[|p| - 64..])
  }

  /** Folding p then q continues from the value p left, whatever the step. */
  lemma {:induction false} FoldAppend(step: (seq<Word>, seq<byte>) -> seq<Word>, hash: seq<Word>, p: seq<byte>, q: seq<byte>)
    requires |p| % 64 == 0 && |q| % 64 == 0
    ensures (BlocksAdd(|p|, |q|); Fold(step, hash, p + q) == Fold(step, Fold(step, hash, p), q))
    decreases |q|
  {
    BlocksAdd(|p|, |q|);
    if q != [] {
      var pq := p + q;
      var q' := q[..|q| - 64];
      BlocksAdd(|p|, |q'|);
      BlocksAdd(|q'|, 64);
      assert pq[..|pq| - 64] == p + q';
      assert pq[|pq| - 64..] == q[|q| - 64..];
      FoldAppend(step, hash, p, q');
    } else {
      assert p + q == p;
    }
  }

  /** `ProcessBlock` where its arguments have the right sizes; other arguments are left alone. */
  function Step(hash: seq<Word>, block: seq<byte>): (r: seq<Word>)
    ensures |hash| == 8 ==> |r| == 8
  {
    if |hash| == 8 && |block| == 64 then ProcessBlock(hash, block) else hash
  }

  /** The hash value after the 64-byte blocks of p, taken in order, starting from `hash` (the chunk loop of `one_shot`). */
  function Chain(hash: seq<Word>, p: seq<byte>): (r: seq<Word>)
    requires |hash| == 8 && |p| % 64 == 0
    ensures |r| == 8
  {
    ChainLength(hash, p);
    Fold(Step, hash, p)
  }

  lemma {:induction false} ChainLength(hash: seq<Word>, p: seq<byte>)
    requires |hash| == 8 && |p| % 64 == 0
    ensures |Fold(Step, hash, p)| == 8
    decreases |p|
  {
    if p != [] {
      BlocksAdd(|p| - 64, 64);
      ChainLength(hash, p[..|p| - 64]);
    }
  }

  /** The last block of p is compressed into the value the blocks before it left. */
  lemma ChainLastBlock(hash: seq<Word>, p: seq<byte>)
    requires |hash| == 8 && |p| % 64 == 0 && |p| >= 64
    ensures (BlocksAdd(|p| - 64, 64);
      Chain(hash, p) == Compress(Chain(hash, p[..|p| - 64]), Schedule(p[|p| - 64..])))
  {
    BlocksAdd(|p| - 64, 64);
  }

  lemma MultipleOf64(k: nat)
    ensures (64 * k) % 64 == 0
  {
  }

  /** Chunk i of p, compressed into the value chunks 0 .. i-1 left, gives the value after chunk i. */
  lemma ChainNextChunk(hash: seq<Word>, p: seq<byte>, i: nat)
    requires |hash| == 8 && 64 * (i + 1) <= |p|
    ensures (MultipleOf64(i); MultipleOf64(i + 1);
      Chain(hash, p[..64 * (i + 1)]) == Compress(Chain(hash, p[..64 * i]), Schedule(p[64 * i .. 64 * (i + 1)])))
  {
    MultipleOf64(i);
    MultipleOf64(i + 1);
    var prefix := p[..64 * (i + 1)];
    assert prefix[..64 * i] == p[..64 * i] && prefix[64 * i..] == p[64 * i .. 64 * (i + 1)];
    ChainLastBlock(hash, prefix);
  }

  /** Hashing p then q continues from the value p left: each block reads its predecessor's state. */
  lemma ChainAppend(hash: seq<Word>, p: seq<byte>, q: seq<byte>)
    requires |hash| == 8 && |p| % 64 == 0 && |q| % 64 == 0
    ensures (BlocksAdd(|p|, |q|); Chain(hash, p + q) == Chain(Chain(hash, p), q))
  {
    BlocksAdd(|p|, |q|);
    FoldAppend(Step, hash, p, q);
  }

  /** Whole blocks added to or taken from whole blocks leave whole blocks. */
  lemma BlocksAdd(x: nat, y: nat)
    requires x % 64 == 0 || y % 64 == 0
    ensures x % 64 == 0 && y % 64 == 0 ==> (x + y) % 64 == 0
    ensures (x + y) % 64 == 0 ==> (x % 64 == 0 <==> y % 64 == 0)
  {
    if x % 64 == 0 {
      assert x + y == 64 * (x / 64) + y;
    } else {
      assert x + y == 64 * (y / 64) + x;
    }
  }

  /**
   * Two messages that agree on their first n bytes, n a whole number of
   * blocks within both, reach the same hash value after those blocks:
   * padding only touches bytes after the message.
   */
  lemma ChainSharedPrefix(hash: seq<Word>, m1: seq<byte>, m2: seq<byte>, n: nat)
    requires |hash| == 8 && |m1| < LengthLimit && |m2| < LengthLimit
    requires n % 64 == 0 && n <= |m1| && n <= |m2| && m1[..n] == m2[..n]
    ensures Chain(hash, Pad(m1)[..n]) == Chain(hash, Pad(m2)[..n])
  {
    var p1, p2 := Pad(m1), Pad(m2);
    assert p1[..n] == m1[..n] by {
      assert p1[..|m1|] == m1;
    }
    assert p2[..n] == m2[..n] by {
      assert p2[..|m2|] == m2;
    }
  }

  /** The digest: the eight words of the final hash value, each as 4 big-endian bytes. */
  function Digest(hash: seq<Word>): (d: seq<byte>)
    requires |hash| == 8
    ensures |d| == 32
    ensures WordsOf(d) == hash
  {
    WordsOfBytesOf(hash);
    BytesOf(hash)
  }

  /** SHA-256 of a message whose bit length fits in 64 bits. */
  function Sha256(m: seq<byte>): (d: seq<byte>)
    requires |m| < LengthLimit
    ensures |d| == 32
    ensures WordsOf(d) == Chain(H0, Pad(m))
  {
    var hash := Chain(H0, Pad(m));
    Digest(hash)
  }
}
