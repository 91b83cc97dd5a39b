/**
 The zlib stream of the quick guide: stored blocks only (section 3.2.4 of RFC 1951), wrapped as in
 section 2.2 of RFC 1950.
 */
module StoredDeflate {
  import opened Bytes
  import opened Wrappers
  import opened Png

  const BLOCK: nat := 65535
  const ADLER_MODULUS: nat := 65521

  /** The two sums of section 8.2 of RFC 1950. */
  function Sums(raw: ByteString): (sums: (nat, nat))
    ensures sums.0 < ADLER_MODULUS && sums.1 < ADLER_MODULUS
  {
    if raw == [] then (1, 0)
    else
      var before := Sums(raw[..|raw| - 1]);
      var a := (before.0 + raw[|raw| - 1] as nat) % ADLER_MODULUS;
      (a, (before.1 + a) % ADLER_MODULUS)
  }

  function Adler(raw: ByteString): (checksum: nat)
    ensures checksum < WORD
  {
    Sums(raw).1 * 65536 + Sums(raw).0
  }

  function Total(raw: ByteString): nat {
    if raw == [] then 0 else Total(raw[..|raw| - 1]) + raw[|raw| - 1] as nat
  }

  /** One more than the total of each beginning that is not empty, added up. */
  function Totals(raw: ByteString): nat {
    if raw == [] then 0 else Totals(raw[..|raw| - 1]) + (1 + Total(raw))
  }

  /** Both sums may as well be reduced once at the end. */
  lemma {:induction false} AdlerMeans(raw: ByteString)
    ensures Adler(raw) == Totals(raw) % 65521 * 0x1_0000 + (1 + Total(raw)) % 65521
  {
    SumsMean(raw);
  }

  lemma {:induction false} SumsMean(raw: ByteString)
    ensures Sums(raw) == ((1 + Total(raw)) % 65521, Totals(raw) % 65521)
  {
    if raw != [] {
      var rest, last := raw[..|raw| - 1], raw[|raw| - 1] as nat;
      SumsMean(rest);
      BothReduced(Total(rest), Totals(rest), last);
    }
  }

  lemma BothReduced(total: nat, totals: nat, last: nat)
    ensures ((1 + total) % 65521 + last) % 65521 == (1 + total + last) % 65521
    ensures (totals % 65521 + (1 + total + last) % 65521) % 65521 == (totals + (1 + total + last)) % 65521
  {
    ReducedFirst(1 + total, last);
    ReducedFirst(totals, (1 + total + last) % 65521);
    ReducedFirst(1 + total + last, totals);
  }

  lemma ReducedFirst(a: nat, b: nat)
    ensures (a % 65521 + b) % 65521 == (a + b) % 65521
  {
  }

  /** Two bytes, the lower one first. */
  function Half(n: nat): (bytes: ByteString)
    requires n < 65536
    ensures |bytes| == 2
  {
    [(n % 256) as Byte, (n / 256) as Byte]
  }

  function HalfAt(bytes: ByteString): nat
    requires |bytes| == 2
  {
    bytes[1] as nat * 256 + bytes[0] as nat
  }

  lemma {:induction false} HalfRoundTrip(n: nat)
    requires n < 65536
    ensures HalfAt(Half(n)) == n
  {
  }

  lemma HalfMeans(n: nat, bytes: ByteString)
    requires n < 0x1_0000 && |bytes| == 2
    ensures HalfAt(bytes) == bytes[0] as nat + bytes[1] as nat * 0x100
    ensures bytes == Half(n) <==> HalfAt(bytes) == n
  {
    HalfRoundTrip(n);
  }

  // ----- Writing -----

  function Block(data: ByteString, final: bool): (block: ByteString)
    requires |data| <= BLOCK
    ensures |block| == |data| + 5
  {
    [if final then 1 else 0] + (Half(|data|) + (Half(0xFFFF - |data|) + data))
  }

  /** The blocks of the data: all but the last are full, and only the last is marked final. */
  function Blocks(raw: ByteString): ByteString {
    if raw == [] then []
    else if |raw| <= BLOCK then Block(raw, true)
    else Block(raw[..BLOCK], false) + Blocks(raw[BLOCK..])
  }

  function Stream(raw: ByteString): ByteString {
    [0x78, 0x01] + (Blocks(raw) + Word(Adler(raw)))
  }

  /**
   A stored block: whether it is the final one, the length with the lower byte first, the complement of that, and
   the data.
   */
  lemma BlockMeans(data: ByteString, final: bool)
    requires |data| < 0x1_0000
    ensures var low, high := (|data| % 0x100) as Byte, (|data| / 0x100) as Byte;
            Block(data, final) == [if final then 1 else 0, low, high, 255 - low, 255 - high] + data
  {
    var low, high := (|data| % 0x100) as Byte, (|data| / 0x100) as Byte;
    assert Half(|data|) == [low, high] && Half(0xFFFF - |data|) == [255 - low, 255 - high];
    hide Half;
  }

  /** The stream of two header bytes, blocks of up to 65535 bytes and the checksum, most significant byte first. */
  lemma StreamMeans(raw: ByteString)
    ensures Stream(raw) == [0x78, 0x01] + Blocks(raw) + Word(Adler(raw))
    ensures Blocks(raw) ==
            if raw == [] then []
            else if |raw| <= 65535 then Block(raw, true) else Block(raw[..65535], false) + Blocks(raw[65535..])
  {
    hide Block, Word, Adler;
  }

  method WriteStream(raw: ByteString) returns (compressed: ByteString)
    ensures compressed == Stream(raw)
  {
    hide Blocks, Word, Adler;
    compressed := [0x78, 0x01];
    ghost var blocks: ByteString := [];
    var offset := 0;
    assert raw[0..] == raw;
    while offset < |raw|
      invariant 0 <= offset && compressed == [0x78, 0x01] + blocks
      invariant if offset < |raw| then Blocks(raw) == blocks + Blocks(raw[offset..])
                  else Blocks(raw) == blocks + Blocks([])
    {
      var end := if offset + BLOCK < |raw| then offset + BLOCK else |raw|;
      var block := raw[offset..end];
      var final := offset + |block| == |raw|;
      BlocksNext(raw, offset, block);
      compressed := compressed + [if final then 1 else 0];
      compressed := compressed + Half(|block|) + Half(0xFFFF - |block|);
      compressed := compressed + block;
      blocks := blocks + Block(block, final);
      offset := offset + BLOCK;
    }
    NoBlocks();
    compressed := compressed + Word(Adler(raw));
    assert compressed == Stream(raw);
  }

  lemma {:induction false} NoBlocks()
    ensures Blocks([]) == []
  {
  }

  lemma {:induction false} BlocksNext(raw: ByteString, offset: nat, block: ByteString)
    requires offset < |raw| && block == raw[offset..if offset + BLOCK < |raw| then offset + BLOCK else |raw|]
    ensures |block| <= BLOCK
    ensures Blocks(raw[offset..]) ==
            Block(block, offset + |block| == |raw|) +
                (if offset + BLOCK < |raw| then Blocks(raw[offset + BLOCK..]) else Blocks([]))
  {
    hide Block;
    var rest := raw[offset..];
    if |rest| > BLOCK {
      assert rest[..BLOCK] == block && rest[BLOCK..] == raw[offset + BLOCK..];
    } else {
      assert rest == block && Blocks([]) == [];
    }
  }

  // ----- Reading -----

  /** Reads stored blocks up to and including the final one; other kinds of blocks are not read. */
  function Inflate(bytes: ByteString): Option<(ByteString, ByteString)>
    decreases |bytes|
  {
    if |bytes| < 5 || bytes[0] / 2 % 4 != 0 then None
    else
      var length := HalfAt(bytes[1..3]);
      if HalfAt(bytes[3..5]) != 0xFFFF - length || |bytes| < 5 + length then None
      else
        var data, rest := bytes[5..5 + length], bytes[5 + length..];
        if bytes[0] % 2 == 1 then Some((data, rest))
        else
          match Inflate(rest)
          case None => None
          case Some((more, after)) => Some((data + more, after))
  }

  /** The whole stream: header, data, checksum and nothing else. */
  function Unwrap(stream: ByteString): Option<ByteString> {
    if |stream| < 2 || stream[0] % 16 != 8 || stream[1] / 32 % 2 != 0 ||
       (stream[0] as nat * 256 + stream[1] as nat) % 31 != 0
    then None
    else
      match Inflate(stream[2..])
      case None => None
      case Some((raw, rest)) => if rest == Word(Adler(raw)) then Some(raw) else None
  }

  /** One block read back. */
  lemma {:induction false} BlockRead(data: ByteString, final: bool, rest: ByteString)
    requires |data| <= BLOCK
    ensures Inflate(Block(data, final) + rest) ==
            if final then Some((data, rest))
            else
              match Inflate(rest)
              case None => None
              case Some((more, after)) => Some((data + more, after))
  {
    HalfRoundTrip(|data|);
    HalfRoundTrip(0xFFFF - |data|);
    BlockParts(data, final, rest);
    hide Half, HalfAt, Block;
  }

  lemma {:induction false} BlockParts(data: ByteString, final: bool, rest: ByteString)
    requires |data| <= BLOCK
    ensures var bytes := Block(data, final) + rest;
            && |bytes| == 5 + |data| + |rest| && bytes[0] == (if final then 1 else 0)
            && bytes[1..3] == Half(|data|) && bytes[3..5] == Half(0xFFFF - |data|)
            && bytes[5..5 + |data|] == data && bytes[5 + |data|..] == rest
  {
    hide Half;
  }

  lemma {:induction false} BlocksRead(raw: ByteString, rest: ByteString)
    requires raw != []
    ensures Inflate(Blocks(raw) + rest) == Some((raw, rest))
    decreases |raw|
  {
    hide Inflate, Block;
    if |raw| <= BLOCK {
      BlockRead(raw, true, rest);
    } else {
      var first, more := raw[..BLOCK], raw[BLOCK..];
      assert Blocks(raw) + rest == Block(first, false) + (Blocks(more) + rest);
      BlockRead(first, false, Blocks(more) + rest);
      BlocksRead(more, rest);
      assert first + more == raw;
    }
  }

  /** The stream reads back as the data exactly when there is any: without data it has no final block. */
  lemma {:induction false} StreamRoundTrip(raw: ByteString)
    ensures Unwrap(Stream(raw)) == if raw != [] then Some(raw) else None
  {
    var stream := Stream(raw);
    hide Inflate, Word, Adler, Blocks;
    assert stream[2..] == Blocks(raw) + Word(Adler(raw));
    assert stream[0] == 0x78 && stream[1] == 0x01;
    if raw != [] {
      BlocksRead(raw, Word(Adler(raw)));
    } else {
      NoBlocks();
      ShortStream(Word(Adler(raw)));
      assert [] + Word(Adler(raw)) == Word(Adler(raw));
    }
  }

  lemma {:induction false} ShortStream(bytes: ByteString)
    requires |bytes| < 5
    ensures Inflate(bytes) == None
  {
  }
}
