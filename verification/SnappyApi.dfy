/** The public operations of the codec, and the facts that tie them together. */
module SnappyApi {
  import opened Bytes
  import opened SnappyFormat
  import opened SnappyStubs
  import opened SnappySource
  import opened SnappyFlat
  import opened SnappyScatter
  import opened SnappyWriters
  import opened SnappyDecompress
  import opened SnappyCompressor

  /** What a compressed string stands for: its header, read leniently, and its tags. */
  function Uncompressed(s: seq<Byte>): (r: Option<seq<Byte>>)
    ensures r.Some? ==> LenientHeader(s).Some? && |r.value| == LenientHeader(s).value.length
  {
    match LenientHeader(s)
    case None => None
    case Some(h) => Decode(s[h.size..], [], h.length)
  }

  /** Behind the header every fragment has a length that fits into 32 bits. */
  ghost predicate NarrowBody(frags: seq<seq<Byte>>) {
    var h := LenientHeader(Concat(frags));
    h.Some? ==> Narrow(Dropped(frags, h.value.size))
  }

  /** Fewer than 2^32 bytes come after the header. */
  predicate ShortBody(s: seq<Byte>) {
    var h := LenientHeader(s);
    h.Some? ==> |s| - h.value.size < WORD32
  }

  /** InternalUncompress with any of the three writers. The result depends on the bytes of
      the source alone, not on the writer, nor on how they are cut into fragments, but that the
      fragments have to be narrow: a wider one is never got over, and the program refuses the
      source or does not come back, in which case `ends` is false. */
  method InternalUncompress(r: Source, w: Writer) returns (ok: bool, ends: bool)
    requires r.Valid() && w.Valid() && r !in w.Footprint()
    requires LenientHeader(r.Rest()).Some? ==> w.Ready(LenientHeader(r.Rest()).value.length)
    modifies r, w.Footprint()
    ensures ok <==> Uncompressed(old(r.Rest())).Some? && NarrowBody(old(r.frags))
    ensures ok ==> w.Valid() && Some(w.Output()) == Uncompressed(old(r.Rest()))
    ensures ok || NarrowBody(old(r.frags)) ==> ends
  {
    hide Decode, VarintSum, Terminator, Concat, Narrow, Dropped, SnappyDecompressor.Window, SnappyDecompressor.Valid,
      SnappyDecompressor.Tagged, LenientHeader;
    var decompressor := new SnappyDecompressor(r);
    var read, length := decompressor.ReadUncompressedLength();
    if !read { return false, true; }
    w.SetExpectedLength(length);
    ends := decompressor.DecompressAllTags(w);
    ok := decompressor.eof;
    if ok {
      DecodeEnd(w.Output(), w.Limit());
      ok := w.CheckLength();
    }
  }

  lemma DecodeEnd(out: seq<Byte>, limit: nat)
    ensures Decode([], out, limit) == if |out| == limit then Some(out) else None
  {
  }

  /** RawUncompress into a flat array at least as long as the header says. */
  method RawUncompress(source: Source, dst: array<Byte>) returns (ok: bool, ends: bool)
    requires source.Valid()
    requires LenientHeader(source.Rest()).Some? ==> LenientHeader(source.Rest()).value.length <= dst.Length
    modifies source, dst
    ensures ok <==> Uncompressed(old(source.Rest())).Some? && NarrowBody(old(source.frags))
    ensures ok || NarrowBody(old(source.frags)) ==> ends
    ensures ok ==> var out := Uncompressed(old(source.Rest())).value; |out| <= dst.Length && dst[..|out|] == out
  {
    hide Decode, VarintSum, Terminator;
    var a := new SnappyArrayWriter(dst);
    ok, ends := InternalUncompress(source, Array(a));
  }

  /** RawUncompressToIOVec: the same bytes, end to end over separate buffers. */
  method RawUncompressToIOVec(source: Source, iov: IOVec) returns (ok: bool, ends: bool)
    requires source.Valid() && Separate(iov)
    requires LenientHeader(source.Rest()).Some? ==> LenientHeader(source.Rest()).value.length <= Start(iov, |iov|)
    modifies source, iov
    ensures ok <==> Uncompressed(old(source.Rest())).Some? && NarrowBody(old(source.frags))
    ensures ok || NarrowBody(old(source.frags)) ==> ends
    ensures ok ==> Uncompressed(old(source.Rest())).value <= Flat(iov, |iov|)
  {
    hide Decode, VarintSum, Terminator;
    var v := new SnappyIOVecWriter(iov);
    ok, ends := InternalUncompress(source, Vector(v));
    if ok && iov != [] { WrittenIsPrefix(iov, v.currIndex, v.currWritten); }
  }

  lemma {:induction false} WrittenIsPrefix(iov: IOVec, k: nat, n: nat)
    requires k < |iov| && n <= iov[k].Length
    ensures Flat(iov, k) + iov[k][..n] <= Flat(iov, |iov|)
  {
    FlatPrefix(iov, k + 1, |iov|);
    assert iov[k][..] == iov[k][..n] + iov[k][n..];
    assert Flat(iov, k + 1) == Flat(iov, k) + iov[k][..n] + iov[k][n..];
  }

  lemma {:induction false} FlatPrefix(iov: IOVec, j: nat, k: nat)
    requires j <= k <= |iov|
    ensures Flat(iov, j) <= Flat(iov, k)
    decreases k
  {
    if j < k { FlatPrefix(iov, j, k - 1); }
  }

  /** A flat byte array as a source of one fragment. */
  method ByteArraySource(s: seq<Byte>) returns (source: Source)
    ensures fresh(source) && source.Valid() && source.Rest() == s && (NarrowBody(source.frags) <==> ShortBody(s))
  {
    source := new Source(if s == [] then [] else [s]);
    FlatBody(s);
  }

  lemma FlatBody(s: seq<Byte>)
    ensures var frags := if s == [] then [] else [s];
            Concat(frags) == s && (NarrowBody(frags) <==> ShortBody(s))
  {
    hide LenientHeader, Dropped;
    var h := LenientHeader(s);
    if s == [] {
      assert Concat([]) == [];
      DroppedNone([]);
    } else {
      DroppedOne(s, if h.Some? then h.value.size else 0);
    }
  }

  /** IsValidCompressedBuffer: true exactly when uncompressing would succeed. */
  method IsValidCompressedBuffer(s: seq<Byte>) returns (valid: bool, ends: bool)
    ensures valid <==> Uncompressed(s).Some? && ShortBody(s)
    ensures ShortBody(s) ==> ends
  {
    hide Decode, VarintSum, Terminator, NarrowBody, ShortBody;
    var source := ByteArraySource(s);
    var c := new SnappyDecompressionValidator();
    valid, ends := InternalUncompress(source, Validator(c));
  }

  /** Uncompress to a string, which reads the header strictly first. */
  method Uncompress(s: seq<Byte>) returns (ok: bool, ends: bool, out: seq<Byte>)
    ensures ok <==> StrictHeader(s).Some? && Uncompressed(s).Some? && ShortBody(s)
    ensures ok ==> Some(out) == Uncompressed(s)
    ensures ShortBody(s) ==> ends
  {
    hide Decode, VarintSum, Terminator, NarrowBody, ShortBody;
    out, ends := [], true;
    var next, length := Parse32WithLimit(s);
    HeadersAgree(s);
    if next.None? { return false, true, []; }
    var dst := new Byte[length];
    var source := ByteArraySource(s);
    ok, ends := RawUncompress(source, dst);
    if ok { out := dst[..length]; }
  }

  /** Uncompress rejects what IsValidCompressedBuffer accepts exactly when the tags decode
      and the header takes five bytes of which the last is 16 to 127. */
  lemma StricterThanValid(s: seq<Byte>)
    ensures Uncompressed(s).Some? && ShortBody(s) && StrictHeader(s).None?
       <==> Uncompressed(s).Some? && ShortBody(s) && Terminator(s) == 4 && |s| > 4 && 16 <= s[4]
  {
  }

  /** Such a string exists: a five-byte header for length 0 and no tags. */
  lemma StricterExample()
    ensures var s: seq<Byte> := [0x80, 0x80, 0x80, 0x80, 0x10];
            Uncompressed(s) == Some([]) && ShortBody(s) && StrictHeader(s).None?
  {
    var s: seq<Byte> := [0x80, 0x80, 0x80, 0x80, 0x10];
    assert Terminator(s[4..]) == 0;
    assert Terminator(s[3..]) == 1 by { assert s[3..][1..] == s[4..]; }
    assert Terminator(s[2..]) == 2 by { assert s[2..][1..] == s[3..]; }
    assert Terminator(s[1..]) == 3 by { assert s[1..][1..] == s[2..]; }
    assert Terminator(s) == 4;
    VarintSumFive(s);
    VarintSumZero(s[..4]);
    assert Low7(s[4]) == 0x10;
    assert s[..5] == s;
    assert VarintSum(s[..5]) == WORD32;
    assert s[5..] == [];
  }

  lemma {:induction false} VarintSumZero(s: seq<Byte>)
    requires forall i :: 0 <= i < |s| ==> s[i] % 128 == 0
    ensures VarintSum(s) == 0
  {
    if s != [] { VarintSumZero(s[1..]); }
  }

  /** Whatever Compress may have written for the data, uncompressing gives the data back. */
  lemma CompressedDecodes(code: seq<Byte>, data: seq<Byte>)
    requires Compressed(code, data)
    ensures StrictHeader(code).Some? && Uncompressed(code) == Some(data)
  {
    var h := VarintBytes(|data|);
    var body := code[|h|..];
    assert code == h + body;
    HeaderRoundTrip(|data|, body);
    assert body + [] == body;
    assert Decode(body + [], [], |data|) == Decode([], data, |data|);
  }

  /** Compress to a string of MaxCompressedLength, cut to what was written. */
  method CompressString(hash: HashFunction, data: seq<Byte>) returns (code: seq<Byte>)
    requires GoodHash(hash) && |data| < WORD32
    ensures |code| <= 32 + |data| + |data| / 6 && Compressed(code, data)
    ensures FreshBlocks(data) ==> |code| == |VarintBytes(|data|)| + PlainSize(|data|)
  {
    var source := ByteArraySource(data);
    var dest := new Byte[MaxCompressedLength(|data|)];
    var n := Compress(hash, source, dest);
    code := dest[..n];
  }

  /** Compression followed by decompression is the identity, whichever hash function steers the
      compressor, on every input below 2^32 bytes whose code has fewer than 2^32 bytes behind the
      header, and on no other. An input has if its largest possible code has; it has not if the
      blocks are incompressible and the literals they become are that long. */
  method RoundTrip(hash: HashFunction, data: seq<Byte>) returns (code: seq<Byte>, ok: bool, ends: bool, out: seq<Byte>)
    requires GoodHash(hash) && |data| < WORD32
    ensures Compressed(code, data)
    ensures ok <==> |code| - |VarintBytes(|data|)| < 0x1_0000_0000
    ensures ok ==> ends && out == data
    ensures 32 + |data| + |data| / 6 <= 0x1_0000_0000 ==> ok
    ensures FreshBlocks(data) && PlainSize(|data|) >= WORD32 ==> !ok
  {
    hide Emits, Decode, Concat, VarintBytes, Terminator, PlainSize, FreshBlocks, StrictHeader, LenientHeader;
    code := CompressString(hash, data);
    CompressedDecodes(code, data);
    CodeBody(code, data);
    ok, ends, out := Uncompress(code);
  }

  /** What comes after the header of a compressed string. */
  lemma CodeBody(code: seq<Byte>, data: seq<Byte>)
    requires Compressed(code, data)
    ensures 1 <= |VarintBytes(|data|)| <= |code|
    ensures ShortBody(code) <==> |code| - |VarintBytes(|data|)| < WORD32
  {
    hide Emits, VarintBytes;
    var h := VarintBytes(|data|);
    assert code == h + code[|h|..];
    HeaderRoundTrip(|data|, code[|h|..]);
  }
}
