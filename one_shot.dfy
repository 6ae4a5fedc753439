/**
 * `one_shot` as the program runs it: the padded message is walked 64 bytes
 * at a time; each chunk fills a 64-entry schedule array, the working
 * variables a..h go through 64 rounds in local variables, and the hash array
 * is updated in place; at the end the eight hash words are written out as
 * the 32-byte digest. Each method is proved to compute the function of
 * Sha256Spec it implements.
 */
module WpSha256 {
  import opened Words
  import opened Constants
  import opened Padding
  import opened Sha256Spec

  /** The schedule array of one chunk: FIPS PUB 180-4 section 6.2.2, step 1. */
  method ExpandSchedule(chunk: seq<byte>) returns (schedule: array<Word>)
    requires |chunk| == 64
    ensures fresh(schedule)
    ensures schedule[..] == Schedule(chunk)
  {
    schedule := new Word[64](_ => 0);
    LoadChunk(schedule, chunk);
    ExtendInPlace(schedule, chunk);
  }

  /** The chunk copied into the schedule as 16 big-endian words; the rest of the array is untouched. */
  method LoadChunk(schedule: array<Word>, chunk: seq<byte>)
    requires schedule.Length == 64 && |chunk| == 64
    modifies schedule
    ensures schedule[..16] == Schedule(chunk)[..16]
    ensures schedule[16..] == old(schedule[16..])
  {
    var w := Schedule(chunk);
    var i := 0;
    while i < 16
      invariant 0 <= i <= 16
      invariant schedule[..i] == w[..i]
      invariant schedule[16..] == old(schedule[16..])
    {
      assert w[i] == WordsOf(chunk)[i] by {
        assert w[..16][i] == w[i];
      }
      schedule[i] := WordFromBytes(chunk[4 * i .. 4 * i + 4]);
      i := i + 1;
      assert schedule[..i] == schedule[..i - 1] + [schedule[i - 1]];
    }
  }

  /** The schedule extension loop: words 16 to 63 by the recurrence. */
  method ExtendInPlace(schedule: array<Word>, chunk: seq<byte>)
    requires schedule.Length == 64 && |chunk| == 64
    requires schedule[..16] == Schedule(chunk)[..16]
    modifies schedule
    ensures schedule[..] == Schedule(chunk)
  {
    var w := Schedule(chunk);
    var i := 16;
    while i < 64
      invariant 16 <= i <= 64
      invariant schedule[..i] == w[..i]
    {
      var s0 := SmallSigma0(schedule[i - 15]);
      var s1 := SmallSigma1(schedule[i - 2]);
      assert Recurrence(w, i);
      assert schedule[i - 16] == w[i - 16] && schedule[i - 15] == w[i - 15];
      assert schedule[i - 7] == w[i - 7] && schedule[i - 2] == w[i - 2];
      schedule[i] := Add(Add(Add(schedule[i - 16], s0), schedule[i - 7]), s1);
      i := i + 1;
      assert schedule[..i] == schedule[..i - 1] + [schedule[i - 1]];
    }
    assert schedule[..] == schedule[..64];
  }

  /** Steps 2-4 of section 6.2.2: the 64 rounds on a..h, then each hash word plus its working variable. */
  method CompressChunk(hash: array<Word>, schedule: array<Word>)
    requires hash.Length == 8 && schedule.Length == 64
    modifies hash
    ensures hash[..] == Compress(old(hash[..]), schedule[..])
  {
    var w := schedule[..];
    var start := Seed(hash[..]);
    var a, b, c, d, e, f, g, h := hash[0], hash[1], hash[2], hash[3], hash[4], hash[5], hash[6], hash[7];
    var i := 0;
    while i < 64
      invariant 0 <= i <= 64
      invariant Working(a, b, c, d, e, f, g, h) == Rounds(start, w, i)
    {
      var s1 := BigSigma1(e);
      var ch := Ch(e, f, g);
      var temp1 := Add(Add(Add(Add(h, s1), ch), K[i]), schedule[i]);
      var s0 := BigSigma0(a);
      var maj := Maj(a, b, c);
      var temp2 := Add(s0, maj);
      h := g;
      g := f;
      f := e;
      e := Add(d, temp1);
      d := c;
      c := b;
      b := a;
      a := Add(temp1, temp2);
      i := i + 1;
    }
    ghost var before := hash[..];
    hash[0] := Add(hash[0], a);
    hash[1] := Add(hash[1], b);
    hash[2] := Add(hash[2], c);
    hash[3] := Add(hash[3], d);
    hash[4] := Add(hash[4], e);
    hash[5] := Add(hash[5], f);
    hash[6] := Add(hash[6], g);
    hash[7] := Add(hash[7], h);
    assert hash[..] == Compress(before, w);
  }

  /** The digest loop at the end of `one_shot`: each hash word appended as 4 big-endian bytes. */
  method SerializeDigest(hash: array<Word>) returns (digest: seq<byte>)
    requires hash.Length == 8
    ensures digest == Digest(hash[..])
  {
    digest := [];
    var i := 0;
    while i < 8
      invariant 0 <= i <= 8
      invariant digest == BytesOf(hash[..i])
    {
      assert hash[..i + 1][..i] == hash[..i];
      digest := digest + WordToBytes(hash[i]);
      i := i + 1;
    }
    assert hash[..] == hash[..8];
  }

  /** The chunk loop of `one_shot`: the hash array, starting from the initial hash value, after every 64-byte chunk of p. */
  method HashChunks(padded: seq<byte>) returns (hash: array<Word>)
    requires |padded| % 64 == 0
    ensures fresh(hash)
    ensures hash[..] == Chain(H0, padded)
  {
    hash := new Word[8](j requires 0 <= j < 8 => H0[j]);
    assert hash[..] == H0;
    var chunks := |padded| / 64;
    assert |padded| == 64 * chunks;
    var i := 0;
    while i < chunks
      invariant 0 <= i <= chunks
      invariant (MultipleOf64(i); hash[..] == Chain(H0, padded[..64 * i]))
    {
      var chunk := padded[64 * i .. 64 * (i + 1)];
      var schedule := ExpandSchedule(chunk);
      CompressChunk(hash, schedule);
      ChainNextChunk(H0, padded, i);
      i := i + 1;
    }
    assert padded[..64 * chunks] == padded;
  }

  /**
   * `one_shot`: the digest of the message, for messages whose bit length fits
   * in the 64-bit length field; longer messages are refused instead of being
   * padded with a wrapped length.
   */
  method OneShot(message: seq<byte>) returns (r: Result<seq<byte>>)
    ensures |message| >= LengthLimit ==> r == Failure(LengthOverflow)
    ensures |message| < LengthLimit ==> r == Success(Sha256(message))
  {
    if |message| >= LengthLimit {
      return Failure(LengthOverflow);
    }
    var hash := HashChunks(Pad(message));
    var digest := SerializeDigest(hash);
    return Success(digest);
  }
}
