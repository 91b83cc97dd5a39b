/**
 The incremental SHA-256 of the game identifier, proved against the definitions of FIPS 180-4.
 The section numbers below are those of that standard.
 */
module Sha256 {
  import opened Bytes

  type Word = bv32

  const LENGTH_MODULUS: nat := 0x1_0000_0000_0000_0000

  const INITIAL: seq<Word> := [
    0x6a09e667, 0xbb67ae85, 0x3c6ef372, 0xa54ff53a, 0x510e527f, 0x9b05688c, 0x1f83d9ab, 0x5be0cd19
  ]

  // ----- Section 4.1.2: the word functions -----

  /** Addition modulo 2^32. */
  function Add(x: Word, y: Word): Word {
    x + y
  }

  function Rotate(value: Word, bits: Word): Word
    requires 0 < bits < 32
  {
    (value >> bits) | (value << (32 - bits))
  }

  function Choice(x: Word, y: Word, z: Word): Word {
    (x & y) ^ (!x & z)
  }

  function Majority(x: Word, y: Word, z: Word): Word {
    (x & y) ^ (x & z) ^ (y & z)
  }

  function Sum0(x: Word): Word {
    Rotate(x, 2) ^ Rotate(x, 13) ^ Rotate(x, 22)
  }

  function Sum1(x: Word): Word {
    Rotate(x, 6) ^ Rotate(x, 11) ^ Rotate(x, 25)
  }

  function Sigma0(x: Word): Word {
    Rotate(x, 7) ^ Rotate(x, 18) ^ (x >> 3)
  }

  function Sigma1(x: Word): Word {
    Rotate(x, 17) ^ Rotate(x, 19) ^ (x >> 10)
  }

  /** Section 4.2.2. */
  function Constants(): (k: seq<Word>)
    ensures |k| == 64
  {
    [0x428a2f98, 0x71374491, 0xb5c0fbcf, 0xe9b5dba5, 0x3956c25b, 0x59f111f1, 0x923f82a4, 0xab1c5ed5] +
    [0xd807aa98, 0x12835b01, 0x243185be, 0x550c7dc3, 0x72be5d74, 0x80deb1fe, 0x9bdc06a7, 0xc19bf174] +
    [0xe49b69c1, 0xefbe4786, 0x0fc19dc6, 0x240ca1cc, 0x2de92c6f, 0x4a7484aa, 0x5cb0a9dc, 0x76f988da] +
    [0x983e5152, 0xa831c66d, 0xb00327c8, 0xbf597fc7, 0xc6e00bf3, 0xd5a79147, 0x06ca6351, 0x14292967] +
    [0x27b70a85, 0x2e1b2138, 0x4d2c6dfc, 0x53380d13, 0x650a7354, 0x766a0abb, 0x81c2c92e, 0x92722c85] +
    [0xa2bfe8a1, 0xa81a664b, 0xc24b8b70, 0xc76c51a3, 0xd192e819, 0xd6990624, 0xf40e3585, 0x106aa070] +
    [0x19a4c116, 0x1e376c08, 0x2748774c, 0x34b0bcb5, 0x391c0cb3, 0x4ed8aa4a, 0x5b9cca4f, 0x682e6ff3] +
    [0x748f82ee, 0x78a5636f, 0x84c87814, 0x8cc70208, 0x90befffa, 0xa4506ceb, 0xbef9a3f7, 0xc67178f2]
  }

  // ----- Section 6.2.2: one block -----

  function BigEndianWord(b0: Byte, b1: Byte, b2: Byte, b3: Byte): Word {
    ((b0 as Word) << 24) | ((b1 as Word) << 16) | ((b2 as Word) << 8) | (b3 as Word)
  }

  /** A schedule word from the ones 2, 7, 15 and 16 places before it. */
  function ScheduleWord(w2: Word, w7: Word, w15: Word, w16: Word): Word {
    Add(Add(Add(w16, Sigma0(w15)), w7), Sigma1(w2))
  }

  /** The first n words of the message schedule. */
  function Schedule(block: seq<Byte>, n: nat): (words: seq<Word>)
    requires |block| == 64 && n <= 64
    ensures |words| == n
  {
    if n == 0 then []
    else
      var words := Schedule(block, n - 1);
      var t := n - 1;
      words + [if t < 16 then BigEndianWord(block[4 * t], block[4 * t + 1], block[4 * t + 2], block[4 * t + 3])
               else ScheduleWord(words[t - 2], words[t - 7], words[t - 15], words[t - 16])]
  }

  lemma ScheduleNext(block: seq<Byte>, n: nat)
    requires |block| == 64 && 16 <= n < 64
    ensures var words := Schedule(block, n);
            Schedule(block, n + 1) ==
            words + [Add(Add(Add(words[n - 16], Sigma0(words[n - 15])), words[n - 7]), Sigma1(words[n - 2]))]
  {
    hide Add, Sigma0, Sigma1, BigEndianWord;
  }

  datatype Working = Working(a: Word, b: Word, c: Word, d: Word, e: Word, f: Word, g: Word, h: Word)

  function Round(v: Working, k: Word, w: Word): Working {
    var temp1 := Add(Add(Add(Add(v.h, Sum1(v.e)), Choice(v.e, v.f, v.g)), k), w);
    var temp2 := Add(Sum0(v.a), Majority(v.a, v.b, v.c));
    Working(Add(temp1, temp2), v.a, v.b, v.c, Add(v.d, temp1), v.e, v.f, v.g)
  }

  function Rounds(v: Working, words: seq<Word>, n: nat): Working
    requires |words| == 64 && n <= 64
  {
    if n == 0 then v
    else Round(Rounds(v, words, n - 1), Constants()[n - 1], words[n - 1])
  }

  function Unpack(state: seq<Word>): Working
    requires |state| == 8
  {
    Working(state[0], state[1], state[2], state[3], state[4], state[5], state[6], state[7])
  }

  function AddWorking(state: seq<Word>, v: Working): (sum: seq<Word>)
    requires |state| == 8
    ensures |sum| == 8
  {
    [Add(state[0], v.a), Add(state[1], v.b), Add(state[2], v.c), Add(state[3], v.d),
     Add(state[4], v.e), Add(state[5], v.f), Add(state[6], v.g), Add(state[7], v.h)]
  }

  function Compress(state: seq<Word>, block: seq<Byte>): (next: seq<Word>)
    requires |state| == 8 && |block| == 64
    ensures |next| == 8
  {
    AddWorking(state, Rounds(Unpack(state), Schedule(block, 64), 64))
  }

  /** The chaining value after every 64-byte block of `bytes`. */
  function HashBlocks(bytes: seq<Byte>): (state: seq<Word>)
    requires |bytes| % 64 == 0
    ensures |state| == 8
  {
    if bytes == [] then INITIAL
    else Compress(HashBlocks(bytes[..|bytes| - 64]), bytes[|bytes| - 64..])
  }

  // ----- Section 5.1.1: padding -----

  /** The number of zero bytes between the 0x80 byte and the length field. */
  function ZeroCount(length: nat): nat {
    (55 - length) % 64
  }

  function Power256(n: nat): nat {
    if n == 0 then 1 else 256 * Power256(n - 1)
  }

  lemma Power256Positive(n: nat)
    ensures Power256(n) > 0
  {
  }

  /** Byte number i of n, counted from the least significant one. */
  function ByteAt(n: nat, i: nat): Byte {
    Power256Positive(i);
    (n / Power256(i) % 256) as Byte
  }

  function BigEndian64(n: nat): (bytes: seq<Byte>)
    ensures |bytes| == 8
  {
    [ByteAt(n, 7), ByteAt(n, 6), ByteAt(n, 5), ByteAt(n, 4), ByteAt(n, 3), ByteAt(n, 2), ByteAt(n, 1), ByteAt(n, 0)]
  }

  function Zeros(n: nat): seq<Byte> {
    seq(n, _ => 0)
  }

  /** The number of zero bytes is the least one that leaves room for the length at the end of a block. */
  lemma PadLength(length: nat, fewer: nat)
    ensures (length + 1 + ZeroCount(length) + 8) % 64 == 0
    ensures fewer < ZeroCount(length) ==> (length + 1 + fewer + 8) % 64 != 0
  {
  }

  function Marked(message: seq<Byte>): (marked: seq<Byte>)
    ensures |marked| == |message| + 1 + ZeroCount(|message|)
  {
    message + [0x80] + Zeros(ZeroCount(|message|))
  }

  function Pad(message: seq<Byte>): (padded: seq<Byte>)
    ensures |padded| % 64 == 0
  {
    PadLength(|message|, 0);
    Marked(message) + BigEndian64(8 * |message| % LENGTH_MODULUS)
  }

  // ----- Section 6.2: the whole hash -----

  function LowByte(w: Word): Byte {
    (w & 0xff) as bv8 as Byte
  }

  function WordBytes(w: Word): (bytes: seq<Byte>)
    ensures |bytes| == 4
  {
    [LowByte(w >> 24), LowByte(w >> 16), LowByte(w >> 8), LowByte(w)]
  }

  function StateBytes(state: seq<Word>): (bytes: seq<Byte>)
    ensures |bytes| == 4 * |state|
  {
    if state == [] then [] else StateBytes(state[..|state| - 1]) + WordBytes(state[|state| - 1])
  }

  /** The one-shot hash of a message. */
  function Digest(message: seq<Byte>): (digest: seq<Byte>)
    ensures |digest| == 32
  {
    StateBytes(HashBlocks(Pad(message)))
  }

  // ----- The incremental hasher -----

  class Hasher {
    var state: seq<Word>
    var bits: nat
    var block: array<Byte>
    var used: nat
    /** Every byte fed in since the start. */
    ghost var consumed: seq<Byte>

    ghost predicate Shaped()
      reads `state, `block
    {
      |state| == 8 && block.Length == 64
    }

    /** The chaining value covers the whole blocks of `fed` and the buffer holds the rest. */
    ghost predicate Holds(fed: seq<Byte>)
      reads `state, `block, `used, block
    {
      && Shaped()
      && used <= 64 && used <= |fed| && (|fed| - used) % 64 == 0
      && state == HashBlocks(fed[..|fed| - used])
      && block[..used] == fed[|fed| - used..]
    }

    /** What the fields say about the bytes consumed so far; `used` stays below 64. */
    ghost predicate Valid()
      reads this, block
    {
      && Holds(consumed) && used < 64
      && bits == 8 * |consumed| % LENGTH_MODULUS
    }

    constructor ()
      ensures Valid() && fresh(block) && consumed == []
    {
      hide HashBlocks;
      NothingHashed();
      state := INITIAL;
      block := new Byte[64](_ => 0);
      bits := 0;
      used := 0;
      consumed := [];
      new;
      assert consumed[..0] == [] && block[..0] == [];
    }

    /** Folds the buffered block into the chaining value. */
    method Transform()
      requires Shaped()
      modifies this`state
      ensures state == Compress(old(state), block[..])
    {
      hide Rounds, Schedule;
      var words := ExpandBlock();
      var v := RunRounds(words);
      state := AddWorking(state, v);
    }

    method ExpandBlock() returns (words: array<Word>)
      requires Shaped()
      ensures fresh(words) && words[..] == Schedule(block[..], 64)
    {
      hide Add, Sigma0, Sigma1, BigEndianWord;
      words := new Word[64];
      for i := 0 to 16
        invariant words[..i] == Schedule(block[..], i)
      {
        words[i] := BigEndianWord(block[4 * i], block[4 * i + 1], block[4 * i + 2], block[4 * i + 3]);
        assert words[..i + 1] == words[..i] + [words[i]];
      }
      ExtendWords(words);
    }

    /** The words behind the sixteenth. */
    method ExtendWords(words: array<Word>)
      requires Shaped() && words.Length == 64 && words as object != block
      requires words[..16] == Schedule(block[..], 16)
      modifies words
      ensures words[..] == Schedule(block[..], 64)
    {
      hide Add, Sigma0, Sigma1, Schedule, ScheduleWord;
      ghost var bytes := block[..];
      for i := 16 to 64
        invariant words[..i] == Schedule(bytes, i)
      {
        ghost var so := words[..i];
        ScheduleNext(bytes, i);
        var s0 := Sigma0(words[i - 15]);
        var s1 := Sigma1(words[i - 2]);
        words[i] := Add(Add(Add(words[i - 16], s0), words[i - 7]), s1);
        assert words[..i + 1] == so + [words[i]];
      }
      assert words[..64] == words[..];
    }

    method RunRounds(words: array<Word>) returns (v: Working)
      requires Shaped() && words.Length == 64
      ensures v == Rounds(Unpack(state), words[..], 64)
    {
      hide Add, Sum0, Sum1, Choice, Majority, Constants;
      var a, b, c, d := state[0], state[1], state[2], state[3];
      var e, f, g, h := state[4], state[5], state[6], state[7];
      ghost var start := Working(a, b, c, d, e, f, g, h);
      for i := 0 to 64
        invariant Working(a, b, c, d, e, f, g, h) == Rounds(start, words[..], i)
      {
        var temp1 := Add(Add(Add(Add(h, Sum1(e)), Choice(e, f, g)), Constants()[i]), words[i]);
        var temp2 := Add(Sum0(a), Majority(a, b, c));
        h := g;
        g := f;
        f := e;
        e := Add(d, temp1);
        d := c;
        c := b;
        b := a;
        a := Add(temp1, temp2);
      }
      v := Working(a, b, c, d, e, f, g, h);
    }

    /** Feeds bytes in. However the message is split into calls, the abstract state is their concatenation. */
    method Update(input: seq<Byte>)
      requires Valid()
      modifies this, block
      ensures Valid() && block == old(block)
      ensures consumed == old(consumed) + input
    {
      hide Holds;
      BitCount(|consumed|, |input|);
      bits := (bits + |input| * 8 % LENGTH_MODULUS) % LENGTH_MODULUS;
      ghost var start, total := consumed, bits;
      var rest := input;
      while |rest| > 0
        invariant Holds(consumed) && used < 64 && block == old(block)
        invariant consumed + rest == start + input && bits == total
      {
        var available := 64 - used;
        var take := if |rest| < available then |rest| else available;
        Fill(rest[..take], consumed);
        consumed := consumed + rest[..take];
        assert rest == rest[..take] + rest[take..];
        rest := rest[take..];
        if used == 64 {
          Fold(consumed);
        }
      }
      assert consumed == start + input;
    }

    method Fill(piece: seq<Byte>, ghost fed: seq<Byte>)
      requires Holds(fed) && |piece| <= 64 - used
      modifies this`used, block
      ensures used == old(used) + |piece| && Holds(fed + piece)
    {
      hide HashBlocks;
      ghost var whole := |fed| - used;
      ghost var before := block[..used];
      Copy(block, used, piece);
      used := used + |piece|;
      assert block[..used] == before + piece == (fed + piece)[whole..];
      assert (fed + piece)[..whole] == fed[..whole];
    }

    method Fold(ghost fed: seq<Byte>)
      requires Holds(fed) && used == 64
      modifies this`state, this`used
      ensures used == 0 && Holds(fed)
    {
      hide HashBlocks, Compress;
      assert block[..] == block[..64];
      Transform();
      NextBlock(fed);
      used := 0;
      assert fed[..|fed|] == fed;
    }

    /** Pads, folds in the last one or two blocks and reads out the hash of everything consumed. */
    method Final() returns (digest: seq<Byte>)
      requires Valid()
      modifies this, block
      ensures digest == Digest(old(consumed))
    {
      hide HashBlocks, BigEndian64, StateBytes, Zeros;
      FillMark();
      ghost var fed := Marked(consumed);
      var length := BigEndian64(bits);
      Fill(length, fed);
      Fold(fed + length);
      assert fed + length == Pad(consumed) == Pad(consumed)[..|Pad(consumed)|];
      digest := ReadOut();
    }

    /** Adds the 0x80 byte and the zeros, spilling into a second block when fewer than 8 bytes are left. */
    method FillMark()
      requires Valid()
      modifies this`state, this`used, block
      ensures used == 56 && Holds(Marked(consumed))
    {
      hide HashBlocks;
      ghost var fed := consumed + [0x80];
      ZerosNeeded(|consumed|, used);
      Fill([0x80], consumed);
      if used > 56 {
        ghost var first := Zeros(64 - used);
        Fill(Zeros(64 - used), fed);
        Fold(fed + first);
        fed := fed + first;
      }
      ghost var second := Zeros(56 - used);
      Fill(Zeros(56 - used), fed);
      assert fed + second == Marked(consumed);
    }

    method ReadOut() returns (digest: seq<Byte>)
      requires |state| == 8
      ensures digest == StateBytes(state)
    {
      hide WordBytes;
      digest := [];
      for i := 0 to 8
        invariant digest == StateBytes(state[..i])
      {
        assert state[..i + 1][..i] == state[..i];
        digest := digest + WordBytes(state[i]);
      }
      assert state[..8] == state;
    }
  }

  lemma ZerosNeeded(length: nat, used: nat)
    requires used < 64 && used <= length && (length - used) % 64 == 0
    ensures ZeroCount(length) == if used + 1 > 56 then 64 - (used + 1) + 56 else 56 - (used + 1)
  {
  }

  method Copy(target: array<Byte>, at: nat, source: seq<Byte>)
    requires at + |source| <= target.Length
    modifies target
    ensures target[..] == old(target[..at]) + source + old(target[at + |source|..])
  {
    forall i | 0 <= i < |source| {
      target[at + i] := source[i];
    }
  }

  lemma BitCount(a: nat, b: nat)
    ensures (8 * a % LENGTH_MODULUS + b * 8 % LENGTH_MODULUS) % LENGTH_MODULUS == 8 * (a + b) % LENGTH_MODULUS
  {
    SumModulus(8 * a, b * 8);
  }

  lemma NothingHashed()
    ensures |INITIAL| == 8 && HashBlocks([]) == INITIAL
  {
  }

  lemma SumModulus(x: nat, y: nat)
    ensures (x % 0x1_0000_0000_0000_0000 + y % 0x1_0000_0000_0000_0000) % 0x1_0000_0000_0000_0000
         == (x + y) % 0x1_0000_0000_0000_0000
  {
    SumOfRests(x, y, 0x1_0000_0000_0000_0000);
  }

  lemma SumOfRests(x: nat, y: nat, m: nat)
    requires m > 0
    ensures (x % m + y % m) % m == (x + y) % m
  {
    var r := x % m + y % m;
    Quotients(x, y, m, x / m, y / m);
    if r < m {
      ModulusUnique(x + y, m, x / m + y / m, r);
      ModulusUnique(r, m, 0, r);
    } else {
      ModulusUnique(x + y, m, x / m + y / m + 1, r - m);
      ModulusUnique(r, m, 1, r - m);
    }
  }

  lemma Quotients(x: nat, y: nat, m: nat, p: nat, q: nat)
    requires m > 0 && p == x / m && q == y / m
    ensures x + y == m * (p + q) + (x % m + y % m)
    ensures m * (p + q + 1) == m * (p + q) + m
    ensures x % m < m && y % m < m
  {
    assert x == m * p + x % m && y == m * q + y % m;
    Distribute(m, p, q);
    Distribute(m, p + q, 1);
  }

  lemma Distribute(m: nat, p: nat, q: nat)
    ensures m * (p + q) == m * p + m * q
  {
  }

  lemma NextBlock(bytes: seq<Byte>)
    requires |bytes| >= 64 && |bytes| % 64 == 0
    ensures HashBlocks(bytes) == Compress(HashBlocks(bytes[..|bytes| - 64]), bytes[|bytes| - 64..])
  {
  }

  function Flatten(chunks: seq<seq<Byte>>): seq<Byte> {
    if chunks == [] then [] else Flatten(chunks[..|chunks| - 1]) + chunks[|chunks| - 1]
  }

  /** Start, any number of updates, finish: the one-shot hash of the concatenation, for every split. */
  method HashChunks(chunks: seq<seq<Byte>>) returns (digest: seq<Byte>)
    ensures digest == Digest(Flatten(chunks))
  {
    hide Digest, HashBlocks, Hasher.Holds, Hasher.Valid;
    digest := Zeros(0);
    var hasher := new Hasher();
    for i := 0 to |chunks|
      invariant hasher.Valid() && fresh(hasher) && fresh(hasher.block)
      invariant hasher.consumed == Flatten(chunks[..i])
    {
      assert chunks[..i + 1][..i] == chunks[..i];
      hasher.Update(chunks[i]);
    }
    assert chunks[..|chunks|] == chunks;
    digest := hasher.Final();
  }

  // ----- The padding loses nothing -----

  lemma SplitModulus(n: nat, p: nat)
    requires p > 0
    ensures n % (256 * p) == (n / p % 256) * p + n % p
  {
    var q := n / p;
    assert n == p * q + n % p;
    assert q == 256 * (q / 256) + q % 256;
    var r := (q % 256) * p + n % p;
    assert n == (256 * p) * (q / 256) + r;
    assert (q % 256) * p <= 255 * p;
    ModulusUnique(n, 256 * p, q / 256, r);
  }

  lemma ModulusUnique(n: nat, m: nat, q: nat, r: nat)
    requires r < m && n == m * q + r
    ensures n % m == r
  {
    var d := n / m - q;
    assert n == m * (n / m) + n % m;
    assert n % m - r == 0 - m * d;
    assert d >= 1 ==> m * d >= m;
    assert 0 - d >= 1 ==> m * (0 - d) >= m;
  }

  lemma {:induction false} BytesDetermine(a: nat, b: nat, n: nat)
    requires forall i :: 0 <= i < n ==> ByteAt(a, i) == ByteAt(b, i)
    ensures Power256(n) > 0 && a % Power256(n) == b % Power256(n)
  {
    if n > 0 {
      BytesDetermine(a, b, n - 1);
      var p := Power256(n - 1);
      assert ByteAt(a, n - 1) == ByteAt(b, n - 1);
      SplitModulus(a, p);
      SplitModulus(b, p);
    }
  }

  lemma BigEndianInjective(a: nat, b: nat)
    requires a < LENGTH_MODULUS && b < LENGTH_MODULUS && BigEndian64(a) == BigEndian64(b)
    ensures a == b
  {
    hide ByteAt, Power256;
    var x, y := BigEndian64(a), BigEndian64(b);
    assert forall i | 0 <= i < 8 :: x[7 - i] == ByteAt(a, i);
    assert forall i | 0 <= i < 8 :: y[7 - i] == ByteAt(b, i);
    BytesDetermine(a, b, 8);
    EightBytes();
  }

  /** The length field: eight bytes, the most significant one first. */
  lemma LengthMeans(n: nat)
    requires n < 0x1_0000_0000_0000_0000
    ensures var bytes := BigEndian64(n);
            n == bytes[0] as int * 0x100_0000_0000_0000 + bytes[1] as int * 0x1_0000_0000_0000 +
                 bytes[2] as int * 0x100_0000_0000 + bytes[3] as int * 0x1_0000_0000 +
                 bytes[4] as int * 0x100_0000 + bytes[5] as int * 0x1_0000 +
                 bytes[6] as int * 0x100 + bytes[7] as int
  {
    hide ByteAt;
    ByteSplits(n, 7, 0x100_0000_0000_0000);
    ByteSplits(n, 6, 0x1_0000_0000_0000);
    ByteSplits(n, 5, 0x100_0000_0000);
    ByteSplits(n, 4, 0x1_0000_0000);
    ByteSplits(n, 3, 0x100_0000);
    ByteSplits(n, 2, 0x1_0000);
    ByteSplits(n, 1, 0x100);
    ByteSplits(n, 0, 1);
  }

  lemma ByteSplits(n: nat, i: nat, p: nat)
    requires p == Power256(i) && p > 0
    ensures n % (256 * p) == ByteAt(n, i) as int * p + n % p
  {
    SplitModulus(n, p);
  }

  lemma EightBytes()
    ensures Power256(8) == LENGTH_MODULUS
  {
    assert Power256(4) == 0x1_0000_0000;
  }

  /** Below the 2^64-bit limit of the standard, two messages with the same padding are equal. */
  lemma PadInjective(a: seq<Byte>, b: seq<Byte>)
    requires 8 * |a| < LENGTH_MODULUS && 8 * |b| < LENGTH_MODULUS
    requires Pad(a) == Pad(b)
    ensures a == b
  {
    hide *;
    PadEnds(a);
    PadEnds(b);
    BigEndianInjective(8 * |a|, 8 * |b|);
  }

  lemma PadEnds(a: seq<Byte>)
    requires 8 * |a| < LENGTH_MODULUS
    ensures var p := Pad(a);
            8 <= |p| && |a| <= |p| && p[|p| - 8..] == BigEndian64(8 * |a|) && p[..|a|] == a
  {
    hide BigEndian64, Zeros;
  }
}
