/** Strings that are too long for the 32-bit fields of the decompressor. */
module SnappyLimits {
  import opened Bytes
  import opened SnappyFormat
  import opened SnappyStubs
  import opened SnappyEmit
  import opened SnappyCompressor
  import opened SnappyApi

  /** n literals of length 0: their length bytes are all ones, and one more makes zero. */
  function Empties(n: nat): (s: seq<Byte>)
    ensures |s| == 5 * n
  {
    if n == 0 then [] else [0xFC, 0xFF, 0xFF, 0xFF, 0xFF] + Empties(n - 1)
  }

  lemma {:induction false} EmptiesDecode(n: nat, out: seq<Byte>, limit: nat)
    requires |out| <= limit
    ensures Decode(Empties(n), out, limit) == if |out| == limit then Some(out) else None
  {
    if n > 0 {
      var s := Empties(n);
      EmptiesDecode(n - 1, out, limit);
      EmptyLiteral(Empties(n - 1), out, limit);
    } else {
      DecodeEnd(out, limit);
    }
  }

  lemma EmptyLiteral(rest: seq<Byte>, out: seq<Byte>, limit: nat)
    requires |out| <= limit
    ensures Decode([0xFC, 0xFF, 0xFF, 0xFF, 0xFF] + rest, out, limit) == Decode(rest, out, limit)
  {
    var tag: seq<Byte> := [0xFC, 0xFF, 0xFF, 0xFF, 0xFF];
    var s := tag + rest;
    assert s[1..5] == [0xFF, 0xFF, 0xFF, 0xFF] && s[5..] == rest;
    AllOnes();
    hide LittleEndian;
    assert TagSize(0xFC) == 5 && ReadTag(s) == LiteralTag(0);
    assert rest[0..] == rest && out + rest[..0] == out;
    assert Decode(s, out, limit) == DecodeTag(LiteralTag(0), rest, out, limit);
  }

  lemma AllOnes()
    ensures LittleEndian([0xFF, 0xFF, 0xFF, 0xFF]) == WORD32 - 1
  {
    assert [0xFF, 0xFF, 0xFF, 0xFF][1..] == [0xFF, 0xFF, 0xFF];
    assert [0xFF, 0xFF, 0xFF][1..] == [0xFF, 0xFF];
    assert [0xFF, 0xFF][1..] == [0xFF];
    assert LittleEndian([0xFF]) == 0xFF;
    assert LittleEndian([0xFF, 0xFF]) == 0xFFFF;
    assert LittleEndian([0xFF, 0xFF, 0xFF]) == 0xFF_FFFF;
  }

  const TOO_MANY := 858993460

  /** A string that stands for the empty string and that the program does not accept. */
  lemma LongBodyExample()
    ensures var s := [0] + Empties(TOO_MANY);
            Uncompressed(s) == Some([]) && StrictHeader(s).Some? && !ShortBody(s)
  {
    hide Empties;
    var body := Empties(TOO_MANY);
    var s: seq<Byte> := [0] + body;
    ZeroHeader(body);
    EmptiesDecode(TOO_MANY, [], 0);
  }

  lemma ZeroHeader(body: seq<Byte>)
    ensures LenientHeader([0] + body) == Some(Header(0, 1)) && StrictHeader([0] + body).Some? && ([0] + body)[1..] == body
  {
    var s: seq<Byte> := [0] + body;
    assert VarintBytes(0) == [0];
    HeaderRoundTrip(0, body);
    assert VarintBytes(0) + body == s;
  }

  /** A byte of a block in which no four bytes occur twice: the numbers from 0 to 16383, in two
      digits each, between marks. */
  function Counting(i: nat): Byte
    requires i < BLOCK_SIZE
  {
    match i % 4
    case 0 => 255
    case 1 => i / 4 / 128
    case 2 => i / 4 % 128
    case _ => 254
  }

  /** Four bytes in a row tell where they are. */
  lemma CountingWindow(i: nat, j: nat)
    requires i + 4 <= BLOCK_SIZE && j + 4 <= BLOCK_SIZE
    requires Counting(i) == Counting(j) && Counting(i + 1) == Counting(j + 1)
    requires Counting(i + 2) == Counting(j + 2) && Counting(i + 3) == Counting(j + 3)
    ensures i == j
  {
    hide Counting;
    var g, h, r := i / 4, j / 4, i % 4;
    assert i == 4 * g + r;
    assert j == 4 * h + j % 4;
    SamePhase(i, j);
    WindowOf(g, h, r);
  }

  lemma WindowOf(g: nat, h: nat, r: nat)
    requires r < 4 && 4 * g + r + 4 <= BLOCK_SIZE && 4 * h + r + 4 <= BLOCK_SIZE
    requires Counting(4 * g + r) == Counting(4 * h + r) && Counting(4 * g + r + 1) == Counting(4 * h + r + 1)
    requires Counting(4 * g + r + 2) == Counting(4 * h + r + 2) && Counting(4 * g + r + 3) == Counting(4 * h + r + 3)
    ensures g == h
  {
    hide Counting;
    match r
    case 0 => SameGroup(g, h);
    case 1 => SameGroup(g, h);
    case 2 => SameNext(g, h);
    case 3 => SameGroup(g + 1, h + 1);
  }

  lemma SameGroup(g: nat, h: nat)
    requires g < 0x4000 && h < 0x4000
    requires Counting(4 * g + 1) == Counting(4 * h + 1) && Counting(4 * g + 2) == Counting(4 * h + 2)
    ensures g == h
  {
    CountingGroup(g);
    CountingGroup(h);
  }

  lemma SameNext(g: nat, h: nat)
    requires g + 1 < 0x4000 && h + 1 < 0x4000
    requires Counting(4 * g + 2) == Counting(4 * h + 2) && Counting(4 * g + 5) == Counting(4 * h + 5)
    ensures g == h
  {
    CountingGroup(g);
    CountingGroup(h);
    CountingGroup(g + 1);
    CountingGroup(h + 1);
    SameNumber(g, h);
  }

  /** The four bytes of a number. */
  lemma CountingGroup(g: nat)
    requires g < 0x4000
    ensures Counting(4 * g) == 255 && Counting(4 * g + 1) == g / 128 && Counting(4 * g + 2) == g % 128 && Counting(4 * g + 3) == 254
    ensures g == 128 * (g / 128) + g % 128
  {
    ModUnique(4 * g + 1, 4, g, 1);
    ModUnique(4 * g + 2, 4, g, 2);
    ModUnique(4 * g + 3, 4, g, 3);
  }

  lemma SameNumber(g: nat, h: nat)
    requires g % 128 == h % 128 && (g + 1) / 128 == (h + 1) / 128
    ensures g == h
  {
  }

  /** The mark is at the same place in both. */
  lemma SamePhase(i: nat, j: nat)
    requires i + 4 <= BLOCK_SIZE && j + 4 <= BLOCK_SIZE
    requires Counting(i) == Counting(j) && Counting(i + 1) == Counting(j + 1)
    requires Counting(i + 2) == Counting(j + 2) && Counting(i + 3) == Counting(j + 3)
    ensures i % 4 == j % 4
  {
    MarkOnly(i); MarkOnly(i + 1); MarkOnly(i + 2); MarkOnly(i + 3);
    MarkOnly(j); MarkOnly(j + 1); MarkOnly(j + 2); MarkOnly(j + 3);
    hide Counting;
  }

  lemma MarkOnly(i: nat)
    requires i < BLOCK_SIZE
    ensures Counting(i) == 255 <==> i % 4 == 0
  {
  }

  /** n bytes of such blocks. */
  function Incompressible(n: nat): (s: seq<Byte>)
    ensures |s| == n
  {
    seq(n, i requires 0 <= i < n => Counting(i % BLOCK_SIZE))
  }

  lemma IncompressibleBlocks(n: nat)
    ensures FreshBlocks(Incompressible(n))
  {
    var data := Incompressible(n);
    forall k: nat | k <= |data| && k % BLOCK_SIZE == 0 ensures Fresh(BlockAt(data, k)) {
      CountingBlock(n, k);
      CountingFresh(BlockAt(data, k));
    }
  }

  lemma CountingBlock(n: nat, k: nat)
    requires k <= n && k % BLOCK_SIZE == 0
    ensures var block := BlockAt(Incompressible(n), k);
            |block| <= BLOCK_SIZE && forall t :: 0 <= t < |block| ==> block[t] == Counting(t)
  {
    hide Counting;
    var block := BlockAt(Incompressible(n), k);
    forall t | 0 <= t < |block| ensures block[t] == Counting(t) {
      ModUnique(k + t, BLOCK_SIZE, k / BLOCK_SIZE, t);
      assert block[t] == Incompressible(n)[k + t];
    }
  }

  lemma LoadBytes(s: seq<Byte>, i: nat)
    requires i + 4 <= |s|
    ensures Load32(s, i) == [s[i], s[i + 1], s[i + 2], s[i + 3]]
  {
  }

  lemma CountingFresh(block: seq<Byte>)
    requires |block| <= BLOCK_SIZE && forall t :: 0 <= t < |block| ==> block[t] == Counting(t)
    ensures Fresh(block)
  {
    hide Counting;
    forall i: nat, j: nat | i < j <= |block| - 4 ensures Load32(block, i) != Load32(block, j) {
      if Load32(block, i) == Load32(block, j) {
        LoadBytes(block, i);
        LoadBytes(block, j);
        CountingWindow(i, j);
      }
    }
  }

  /** Blocks that all become literals take three bytes more each. */
  lemma {:induction false} PlainBlocks(k: nat)
    ensures PlainSize(k * BLOCK_SIZE) == k * (BLOCK_SIZE + 3)
  {
    if k > 0 {
      PlainBlocks(k - 1);
      ModUnique((k - 1) * BLOCK_SIZE, BLOCK_SIZE, k - 1, 0);
      PlainStep((k - 1) * BLOCK_SIZE, BLOCK_SIZE);
      LongTag(BLOCK_SIZE);
    }
  }

  lemma LongTag(n: nat)
    requires 257 <= n <= BLOCK_SIZE
    ensures LiteralSize(n) == n + 3
  {
    var m := n - 1;
    LengthBytesStep(m);
    LengthBytesStep(m / 256);
    LengthBytesStep(m / 256 / 256);
  }

  /** The longest input that meets the bound on inputs does not come back. */
  lemma RoundTripExample()
    ensures var data := Incompressible(WORD32 - 1);
            |data| < WORD32 && FreshBlocks(data) && PlainSize(|data|) >= WORD32
  {
    IncompressibleBlocks(WORD32 - 1);
    PlainBlocks(0xFFFF);
    ModUnique(0xFFFF * BLOCK_SIZE, BLOCK_SIZE, 0xFFFF, 0);
    PlainStep(0xFFFF * BLOCK_SIZE, 0xFFFF);
    LongTag(0xFFFF);
  }
}
