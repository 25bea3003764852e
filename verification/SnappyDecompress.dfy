/** The tag-driven decompressor over a fragmented source. */
module SnappyDecompress {
  import opened Bytes
  import opened SnappyFormat
  import opened SnappyStubs
  import opened SnappySource
  import opened SnappyTable
  import opened SnappyWriters

  const MAXIMUM_TAG_LENGTH := 5

  /** The first tag of s is complete. */
  predicate HasTag(s: seq<Byte>) {
    s != [] && TagSize(s[0]) <= |s|
  }

  class SnappyDecompressor {
    const reader: Source
    const scratch: array<Byte>
    // ip points into scratch, or else into the fragment last returned by Peek
    var inScratch: bool
    var fragment: seq<Byte>
    var ip: nat
    var ipLimit: nat
    // 32 bits, whatever the length of the fragment
    var peeked: nat
    var eof: bool

    ghost predicate Valid()
      reads this, reader, scratch
    {
      && reader.Valid() && scratch.Length == MAXIMUM_TAG_LENGTH && ip <= ipLimit
      && (inScratch ==> ipLimit <= MAXIMUM_TAG_LENGTH && peeked == 0)
      && (!inScratch ==> ipLimit == |fragment| && peeked == |fragment| % WORD32 && fragment <= reader.Rest()
                         && (fragment == [] || (reader.frags != [] && fragment == reader.frags[0])))
    }

    /** The bytes of the source that will not have been skipped with those peeked at. */
    ghost function Left(): int
      reads this`peeked, reader
    {
      |reader.Rest()| - peeked
    }

    /** Skipping what was peeked at is possible, and leaves a wide fragment wide. */
    lemma PeekedFits()
      requires Valid()
      ensures peeked <= |reader.Rest()| && ip <= ipLimit
      ensures Narrow(Dropped(reader.frags, peeked)) == reader.Small()
    {
      hide Narrow;
      DroppedNarrow(reader.frags, peeked);
    }

    /** The bytes buffered at ip. */
    function Window(): seq<Byte>
      requires Valid()
      reads this, reader, scratch
    {
      if inScratch then scratch[ip..ipLimit] else fragment[ip..]
    }

    /** The compressed bytes still to be processed. */
    ghost function Pending(): seq<Byte>
      requires Valid()
      reads this, reader, scratch
    {
      if inScratch then scratch[ip..ipLimit] + reader.Rest() else reader.Rest()[ip..]
    }

    /** Four bytes from ip + k on may be loaded, whether or not all of them are buffered. */
    ghost predicate Readable(k: nat)
      requires Valid()
      reads this, reader, scratch
    {
      ip + k + 4 <= if inScratch then MAXIMUM_TAG_LENGTH else |fragment|
    }

    /** A whole tag is buffered, and its longest trailer can be loaded. */
    ghost predicate Tagged()
      requires Valid()
      reads this, reader, scratch
    {
      HasTag(Window()) && Readable(1)
    }

    constructor (source: Source)
      requires source.Valid()
      ensures Valid() && reader == source && fresh(scratch) && !eof && !inScratch && ip == ipLimit == peeked == 0
      ensures Pending() == source.Rest()
    {
      reader := source;
      scratch := new Byte[MAXIMUM_TAG_LENGTH];
      inScratch, fragment, ip, ipLimit, peeked, eof := false, [], 0, 0, 0, false;
    }

    lemma WindowIsPrefix()
      requires Valid()
      ensures Window() <= Pending() && |Window()| == ipLimit - ip
    {
    }

    function ByteAt(k: nat): Byte
      requires Valid() && ip + k < if inScratch then MAXIMUM_TAG_LENGTH else |fragment|
      reads this, reader, scratch
    {
      if inScratch then scratch[ip + k] else fragment[ip + k]
    }

    /** LittleEndian::Load32 at ip. */
    function Load32(): (v: nat)
      requires Valid() && Readable(0)
      reads this, reader, scratch
    {
      LittleEndian([ByteAt(0), ByteAt(1), ByteAt(2), ByteAt(3)])
    }

    /** A load of which only the first n bytes are kept sees nothing beyond the window. */
    lemma MaskedLoad(n: nat)
      requires Valid() && Readable(0) && n <= 4 && n <= ipLimit - ip
      ensures Load32() % Pow2(8 * n) == LittleEndian(Window()[..n])
    {
      hide LittleEndian, Pow2, Concat, ByteAt, Window, Valid;
      WindowIsPrefix();
      var b := [ByteAt(0), ByteAt(1), ByteAt(2), ByteAt(3)];
      LittleEndianMask(b, n);
      forall i | 0 <= i < n ensures b[i] == Window()[i] { ByteOfWindow(i); }
      assert b[..n] == Window()[..n];
    }

    lemma ByteOfWindow(k: nat)
      requires Valid() && k < ipLimit - ip
      ensures k < |Window()| && Window()[k] == ByteAt(k)
    {
    }

    /** ReadUncompressedLength: byte by byte, before anything is buffered. */
    method ReadUncompressedLength() returns (ok: bool, result: nat)
      requires Valid() && !inScratch && ipLimit == 0
      modifies reader
      ensures Valid() && ip == 0
      ensures ok <==> LenientHeader(old(reader.Rest())).Some?
      ensures ok ==> result == LenientHeader(old(reader.Rest())).value.length
      ensures ok ==> reader.frags == Dropped(old(reader.frags), LenientHeader(old(reader.Rest())).value.size)
    {
      hide Concat, Dropped;
      ghost var s, frags := reader.Rest(), reader.frags;
      DroppedNone(frags);
      result := 0;
      var k := 0;
      while true
        invariant 0 <= k <= 5 && Valid() && Scanned(s, k, result) && reader.frags == Dropped(frags, k) && reader.Rest() == s[k..]
        decreases 5 - k
      {
        // shift is 7 * k
        if k >= 5 { return false, 0; }
        var region := reader.Peek();
        if region == [] { return false, 0; }
        var c := region[0];
        assert c == s[k];
        DroppedMore(frags, k, 1);
        reader.Skip(1);
        ScannedStep(s, k, result);
        result := (result + Pow128(k) * Low7(c)) % WORD32;
        if c < 128 { return true, result; }
        k := k + 1;
      }
    }

    /** The first nbuf of the buffered bytes, moved to the start of scratch, and nothing more
        peeked. */
    method MoveToScratch(nbuf: nat)
      requires Valid() && nbuf == (ipLimit - ip) % WORD32 && nbuf < MAXIMUM_TAG_LENGTH
      modifies this, reader, scratch
      ensures Valid() && inScratch && ip == 0 && ipLimit == nbuf && eof == old(eof) && Window() == old(Window()[..nbuf])
      ensures old(peeked) == 0 ==> reader.frags == old(reader.frags)
      ensures Left() == old(Left()) && reader.Small() == old(reader.Small())
      ensures reader.Small() ==> Pending() == old(Pending())
    {
      hide Concat, Dropped, Narrow;
      ghost var pending, rest := Pending(), reader.Rest();
      PeekedFits();
      WindowIsPrefix();
      DroppedNone(reader.frags);
      if reader.Small() { SmallWindow(); }
      var window := Window()[..nbuf];
      forall i | 0 <= i < |window| {
        scratch[i] := window[i];
      }
      reader.Skip(peeked);
      peeked, inScratch, ip, ipLimit := 0, true, 0, nbuf;
      assert scratch[..nbuf] == window;
    }

    /** Behind the window there is what is left of a source of narrow fragments. */
    lemma SmallWindow()
      requires Valid() && reader.Small()
      ensures ipLimit - ip < WORD32 && (!inScratch ==> peeked == ipLimit) && peeked <= |reader.Rest()|
      ensures Pending() == Window() + reader.Rest()[peeked..]
    {
      hide Concat;
      if !inScratch {
        assert reader.Rest()[..ipLimit] == fragment;
        assert reader.Rest()[ip..] == reader.Rest()[ip..ipLimit] + reader.Rest()[ipLimit..];
        assert fragment[ip..] == reader.Rest()[ip..ipLimit];
      }
    }

    /** Appends the first n bytes of what the source shows to scratch. */
    method AddToScratch(src: seq<Byte>, n: nat)
      requires Valid() && inScratch && ip == 0 && ipLimit + n <= MAXIMUM_TAG_LENGTH
      requires n <= |src| % WORD32 && reader.frags != [] && src == reader.frags[0] && src <= reader.Rest()
      modifies this`ipLimit, reader, scratch
      ensures Valid() && ipLimit == old(ipLimit) + n && Pending() == old(Pending())
      ensures Left() == old(Left()) - n && reader.Small() == old(reader.Small())
    {
      hide Concat, Dropped, Narrow;
      DroppedNarrow(reader.frags, n);
      ghost var rest, held := reader.Rest(), scratch[..ipLimit];
      forall i | 0 <= i < n {
        scratch[ipLimit + i] := src[i];
      }
      assert scratch[..ipLimit + n] == held + src[..n];
      MovedOn(held, src, n, rest);
      reader.Skip(n);
      ipLimit := ipLimit + n;
    }

    lemma MovedOn(held: seq<Byte>, src: seq<Byte>, n: nat, rest: seq<Byte>)
      requires n <= |src| && src <= rest
      ensures (held + src[..n]) + rest[n..] == held + rest
    {
      Assoc(held, src[..n], rest[n..]);
      assert src[..n] + rest[n..] == rest;
    }

    /** Reads on until `needed` bytes are in scratch, or the source ends. Lengths are cut to 32
        bits here; when nothing is left of one the loop goes on for ever, and `ends` is false. */
    method FillScratch(needed: nat) returns (ok: bool, ends: bool)
      requires Valid() && inScratch && ip == 0 && ipLimit <= needed <= MAXIMUM_TAG_LENGTH
      modifies this`ipLimit, reader, scratch
      ensures Valid() && reader.Small() == old(reader.Small()) && (reader.Small() ==> ends)
      ensures ends ==> (ok <==> needed <= |old(Pending())|)
      ensures ok ==> ends && ipLimit == needed && Pending() == old(Pending())
      ensures Left() <= old(Left()) && (ok && needed > old(ipLimit) ==> Left() < old(Left()))
      ensures old(ipLimit) < needed && old(reader.frags) != [] && |old(reader.frags)[0]| % WORD32 == 0 ==> !ok
    {
      hide Concat, Narrow;
      ghost var pending := Pending();
      while ipLimit < needed
        invariant Valid() && old(ipLimit) <= ipLimit <= needed && Pending() == pending && reader.Small() == old(reader.Small())
        invariant Left() == old(Left()) - (ipLimit - old(ipLimit)) && (ipLimit == old(ipLimit) ==> reader.frags == old(reader.frags))
        invariant old(reader.frags) != [] && |old(reader.frags)[0]| % WORD32 == 0 ==> ipLimit == old(ipLimit)
        decreases needed - ipLimit
      {
        var src := reader.Peek();
        if src == [] { return false, true; }
        FirstNarrow();
        var length := |src| % WORD32;
        var toAdd := if needed - ipLimit < length then needed - ipLimit else length;
        if toAdd == 0 { return false, false; }
        AddToScratch(src, toAdd);
      }
      return true, true;
    }

    lemma FirstNarrow()
      requires reader.frags != []
      ensures reader.Small() ==> |reader.frags[0]| % WORD32 == |reader.frags[0]|
    {
    }

    /** Fetches a new fragment in place of the used-up one. */
    method NextFragment()
      requires Valid() && ip == ipLimit
      modifies this`fragment, this`peeked, this`inScratch, this`ip, this`ipLimit, reader
      ensures Valid() && !inScratch && ip == 0 && ipLimit == |fragment| && reader.Small() == old(reader.Small())
      ensures Left() == old(Left()) - |fragment| % WORD32 && (fragment == [] <==> reader.Rest() == [])
      ensures reader.Small() ==> Pending() == old(Pending())
      ensures fragment == [] ==> reader.Small() && Pending() == []
    {
      hide Concat, Dropped, Narrow;
      PeekedFits();
      if reader.Small() { SmallWindow(); }
      reader.Skip(peeked);
      fragment := reader.Peek();
      peeked, inScratch, ip, ipLimit := |fragment| % WORD32, false, 0, |fragment|;
      if fragment == [] { NothingSmall(); }
    }

    lemma NothingSmall()
      requires reader.Valid() && reader.Rest() == []
      ensures reader.Small()
    {
    }

    /** RefillTag: makes the whole next tag, and a full load after its first byte, available. */
    method RefillTag() returns (ok: bool, ends: bool)
      requires Valid() && !eof && ipLimit - ip < MAXIMUM_TAG_LENGTH
      modifies this, reader, scratch
      ensures ok ==> ends && Valid() && Tagged() && !eof && Nearer(old(Left()), old(ipLimit - ip))
      ensures reader.Small() == old(reader.Small()) && (reader.Small() ==> ends)
      ensures old(reader.Small()) ==> (ok <==> HasTag(old(Pending()))) && (eof <==> old(Pending()) == [])
      ensures old(reader.Small()) && ok ==> Pending() == old(Pending())
      ensures !old(reader.Small()) ==> !eof
    {
      hide Concat, TagSize, Window, Pending, Readable, Narrow;
      if ip == ipLimit {
        NextFragment();
        if fragment == [] {
          eof := true;
          return false, true;
        }
      }
      ok, ends := StitchTag();
    }

    /** No more is left of the source than `left`, or as much and a window not longer. */
    ghost predicate Nearer(left: int, window: int)
      reads this, reader
    {
      Left() < left || (Left() == left && ipLimit - ip <= window)
    }

    /** The rest of RefillTag, once there is a first byte to look at. */
    method StitchTag() returns (ok: bool, ends: bool)
      requires Valid() && ip < ipLimit && (ipLimit - ip < MAXIMUM_TAG_LENGTH || (ip == 0 && !inScratch))
      modifies this, reader, scratch
      ensures Valid() && eof == old(eof) && reader.Small() == old(reader.Small()) && (reader.Small() ==> ends)
      ensures ok ==> ends && Tagged() && Nearer(old(Left()), old(ipLimit - ip))
      ensures ok && old(ipLimit - ip) % WORD32 == 0 ==> Left() < old(Left())
      ensures old(reader.Small()) ==> old(Pending()) != [] && (ok <==> HasTag(old(Pending()))) && (ok ==> Pending() == old(Pending()))
    {
      hide Concat, CharTable, Pending, Narrow, TagSize;
      WindowIsPrefix();
      ByteOfWindow(0);
      EntryFields(ByteAt(0));
      if reader.Small() { SmallWindow(); }
      var needed := CharTable(ByteAt(0)) / 2048 + 1;
      ok, ends := true, true;
      var nbuf := (ipLimit - ip) % WORD32;
      if nbuf < needed {
        ok, ends := Stitch(nbuf, needed);
      } else if nbuf < MAXIMUM_TAG_LENGTH {
        MoveToScratch(nbuf);
        WindowIsPrefix();
      }
    }

    /** A tag of which only nbuf bytes, fewer than needed, are buffered. */
    method Stitch(nbuf: nat, needed: nat) returns (ok: bool, ends: bool)
      requires Valid() && ip < ipLimit && (ipLimit - ip < MAXIMUM_TAG_LENGTH || (ip == 0 && !inScratch))
      requires |Window()| == ipLimit - ip && nbuf == (ipLimit - ip) % WORD32 < needed == TagSize(Window()[0]) <= MAXIMUM_TAG_LENGTH
      modifies this, reader, scratch
      ensures Valid() && eof == old(eof) && reader.Small() == old(reader.Small()) && (reader.Small() ==> ends)
      ensures ok ==> ends && Tagged() && Left() < old(Left())
      ensures old(reader.Small()) ==> (ok <==> HasTag(old(Pending()))) && (ok ==> Pending() == old(Pending()))
    {
      hide Concat, Pending, Narrow, TagSize;
      ghost var c := Window()[0];
      WindowIsPrefix();
      if reader.Small() { SmallWindow(); }
      MoveToScratch(nbuf);
      WindowIsPrefix();
      assert nbuf > 0 ==> Pending()[0] == c;
      ok, ends := FillScratch(needed);
      WindowIsPrefix();
    }

    /** MAYBE_REFILL. */
    method MaybeRefill() returns (ok: bool, ends: bool)
      requires Valid() && !eof
      modifies this, reader, scratch
      ensures ok ==> ends && Valid() && Tagged() && !eof && Nearer(old(Left()), old(ipLimit - ip))
      ensures reader.Small() == old(reader.Small()) && (reader.Small() ==> ends)
      ensures old(reader.Small()) ==> (ok <==> HasTag(old(Pending()))) && (eof <==> old(Pending()) == [])
      ensures old(reader.Small()) && ok ==> Pending() == old(Pending())
      ensures !old(reader.Small()) ==> !eof
    {
      hide Concat, Pending, Narrow;
      WindowIsPrefix();
      if ipLimit - ip < MAXIMUM_TAG_LENGTH {
        ok, ends := RefillTag();
      } else {
        ok, ends := true, true;
      }
    }

    /** The writer shares no object with the decompressor. */
    ghost predicate Apart(w: Writer)
      reads {}
    {
      w.Footprint() !! {this, reader, scratch}
    }

    /** Passes over n buffered bytes. */
    method Advance(n: nat)
      requires Valid() && n <= ipLimit - ip
      modifies this`ip
      ensures Valid() && ip == old(ip) + n && Pending() == old(Pending())[n..] && Window() == old(Window())[n..]
    {
      WindowIsPrefix();
      ip := ip + n;
    }

    /** How decoding ends, from where things stand. */
    ghost function Outcome(w: Writer): Option<seq<Byte>>
      requires Valid() && w.Valid()
      reads this, reader, scratch, w.Footprint()
    {
      Decode(Pending(), w.Output(), w.Limit())
    }

    /** How decoding ends once the tag t, already passed over, has been carried out. */
    ghost function OutcomeAfter(t: Tag, w: Writer): Option<seq<Byte>>
      requires Valid() && w.Valid()
      reads this, reader, scratch, w.Footprint()
    {
      DecodeTag(t, Pending(), w.Output(), w.Limit())
    }

    /** Hands n literal bytes to the writer, across as many fragments as they take. */
    method AppendLiteral(w: Writer, n: nat) returns (ok: bool)
      requires Valid() && w.Valid() && Apart(w)
      modifies this, reader, w.Footprint()
      ensures eof == old(eof) && reader.Small() == old(reader.Small())
      ensures ok ==> Valid() && w.Valid() && w.Limit() == old(w.Limit()) && |w.Output()| == |old(w.Output())| + n
      ensures ok && n == 0 ==> Left() == old(Left()) && ipLimit - ip == old(ipLimit - ip)
      ensures ok && reader.Small() ==> Outcome(w) == old(OutcomeAfter(LiteralTag(n), w))
      ensures !ok && reader.Small() ==> old(OutcomeAfter(LiteralTag(n), w)) == None
    {
      hide Decode, DecodeTag, LittleEndian, Concat, Pending, Window, OutcomeAfter, Narrow;
      IpInside();
      var literalLength: nat := n;
      ghost var goal := OutcomeAfter(LiteralTag(n), w);
      ok := true;
      while ipLimit - ip < literalLength
        invariant literalLength <= n && (n == 0 ==> Left() == old(Left()) && ipLimit - ip == old(ipLimit - ip))
        invariant Valid() && ip <= ipLimit && w.Valid() && eof == old(eof) && w.Limit() == old(w.Limit())
        invariant |w.Output()| + literalLength == |old(w.Output())| + n && reader.Small() == old(reader.Small())
        invariant reader.Small() ==> OutcomeAfter(LiteralTag(literalLength), w) == goal
        decreases literalLength, ipLimit - ip == 0
      {
        ok, literalLength := AppendFragment(w, literalLength);
        if !ok { return; }
      }
      ok := AppendWindow(w, literalLength, literalLength);
      if ok { NothingLeft(w); }
    }

    lemma IpInside()
      requires Valid()
      ensures ip <= ipLimit
    {
    }

    lemma NothingLeft(w: Writer)
      requires Valid() && w.Valid()
      ensures OutcomeAfter(LiteralTag(0), w) == Outcome(w)
    {
      hide Decode, DecodeTag, Concat;
      DecodeLiteralDone(Pending(), w.Output(), w.Limit());
    }

    /** All of the current fragment, then on to the next. */
    method AppendFragment(w: Writer, n: nat) returns (ok: bool, left: nat)
      requires Valid() && w.Valid() && Apart(w) && ipLimit - ip < n
      modifies this, reader, w.Footprint()
      ensures eof == old(eof) && reader.Small() == old(reader.Small()) && left == n - old(ipLimit - ip)
      ensures ok ==> Valid() && w.Valid() && w.Limit() == old(w.Limit()) && ip < ipLimit
      ensures ok ==> |w.Output()| + left == |old(w.Output())| + n
      ensures ok && reader.Small() ==> OutcomeAfter(LiteralTag(left), w) == old(OutcomeAfter(LiteralTag(n), w))
      ensures !ok && reader.Small() ==> old(OutcomeAfter(LiteralTag(n), w)) == None
    {
      hide DecodeTag, Decode, LittleEndian, Concat, Pending, Window, Valid, Readable, Tagged, Narrow, Outcome, ByteAt;
      IpInside();
      var avail := ipLimit - ip;
      left := n - avail;
      ok := AppendWindow(w, avail, n);
      if ok {
        NextFragment();
        ok := fragment != [];
        LiteralNeedsBytes(left, w.Output(), w.Limit());
      }
    }

    /** Hands the first k buffered bytes of a literal of n bytes to the writer. */
    method AppendWindow(w: Writer, k: nat, n: nat) returns (ok: bool)
      requires Valid() && w.Valid() && Apart(w) && k <= ipLimit - ip && k <= n
      modifies this`ip, w.Footprint()
      ensures Valid() && ip == old(ip) + k
      ensures ok ==> w.Valid() && w.Limit() == old(w.Limit()) && |w.Output()| == |old(w.Output())| + k
      ensures ok ==> OutcomeAfter(LiteralTag(n - k), w) == old(OutcomeAfter(LiteralTag(n), w))
      ensures !ok ==> old(OutcomeAfter(LiteralTag(n), w)) == None
    {
      hide Decode, Concat, Pending, Window, Valid;
      IpInside();
      WindowIsPrefix();
      ghost var pending, out, limit := Pending(), w.Output(), w.Limit();
      var data := Window()[..k];
      assert data == pending[..k];
      ok := w.Append(data);
      if ok { DecodeLiteralSplit(pending, k, n, out, limit); }
      Advance(k);
    }

    /** The tag at ip, in terms of the whole of what is pending. */
    lemma TagAtIp(w: Writer)
      requires Valid() && Tagged() && w.Valid()
      ensures HasTag(Pending()) && ReadTag(Pending()) == ReadTag(Window()) && Window()[0] == ByteAt(0) == Pending()[0]
      ensures Outcome(w) == DecodeTag(ReadTag(Window()), Pending()[TagSize(ByteAt(0))..], w.Output(), w.Limit())
    {
      hide LittleEndian, DecodeTag, Concat;
      WindowIsPrefix();
      var n := TagSize(Window()[0]);
      assert Pending()[1..n] == Window()[1..n];
    }

    /** Offset and length of a copy: the length, the high offset bits and the number of
        trailing bytes come from the table, the low offset bits from a masked load. */
    method ReadCopy() returns (offset: nat, n: nat)
      requires Valid() && Tagged() && ByteAt(0) % 4 != 0
      modifies this`ip
      ensures Valid() && ReadTag(old(Window())) == CopyTag(offset, n) && 1 <= n && offset < WORD32
      ensures Pending() == old(Pending())[TagSize(old(ByteAt(0)))..]
    {
      hide CharTable, Concat, LittleEndian, ReadTag, Pending, Valid;
      IpInside();
      WindowIsPrefix();
      ByteOfWindow(0);
      var c := ByteAt(0);
      ghost var window := Window();
      EntryFields(c);
      var entry := CharTable(c);
      var extra := entry / 2048;
      Advance(1);
      assert window[1..][..extra] == window[1..TagSize(c)];
      var trailer := LoadTrailer(extra);
      CopyFields(window);
      n := entry % 256;
      offset := entry / 256 % 8 * 256 + trailer;
    }

    /** The value of the n bytes at ip, by a masked load; ip is moved past them. */
    method LoadTrailer(n: nat) returns (v: nat)
      requires Valid() && Readable(0) && n <= 4 && n <= ipLimit - ip
      modifies this`ip
      ensures Valid() && ip == old(ip) + n && v == LittleEndian(old(Window()[..n])) && Pending() == old(Pending())[n..]
    {
      hide Concat, LittleEndian, Pow2, Pending, Window;
      WindowIsPrefix();
      MaskedLoad(n);
      v := Load32() % Pow2(8 * n);
      Advance(n);
    }

    /** The copy branch, up to its refill. */
    method DoCopy(w: Writer) returns (ok: bool)
      requires Valid() && Tagged() && w.Valid() && Apart(w) && ByteAt(0) % 4 != 0
      modifies this`ip, w.Footprint()
      ensures Valid() && eof == old(eof)
      ensures ok ==> w.Valid() && w.Limit() == old(w.Limit()) && Outcome(w) == old(Outcome(w))
      ensures ok ==> |w.Output()| > |old(w.Output())|
      ensures !ok ==> old(Outcome(w)) == None
    {
      hide ReadTag, CopyFrom, Concat, Pending, Window, Valid, Tagged, ByteAt, Readable;
      TagAtIp(w);
      var offset, n := ReadCopy();
      ok := w.AppendFromSelf(offset, n);
    }

    /** The length of the literal whose tag byte was c; ip is just past c, and is moved past
        the length bytes of a long literal. */
    method LiteralLength(c: Byte, ghost window: seq<Byte>) returns (n: nat)
      requires Valid() && c % 4 == 0 && TagSize(c) <= |window| && window[0] == c
      requires Window() == window[1..] && |window| - 1 == ipLimit - ip && Readable(0)
      modifies this`ip
      ensures Valid() && ip >= old(ip) && ReadTag(window) == LiteralTag(n)
      ensures Pending() == old(Pending())[TagSize(c) - 1..]
    {
      hide Concat, LittleEndian, Pending, Window, Valid;
      n := c / 4 + 1;
      LiteralTagOf(window);
      if n >= 61 {
        var lengthLength := n - 60;
        assert window[1..][..lengthLength] == window[1..1 + lengthLength];
        n := LoadTrailer(lengthLength);
        n := (n + 1) % WORD32;
      }
    }

    lemma LiteralTagOf(window: seq<Byte>)
      requires HasTag(window) && window[0] % 4 == 0
      ensures var c := window[0];
              if c / 4 < 60 then TagSize(c) == 1 && ReadTag(window) == LiteralTag(c / 4 + 1)
              else TagSize(c) == c / 4 - 58 && ReadTag(window) == LiteralTag((LittleEndian(window[1..c / 4 - 58]) + 1) % WORD32)
    {
      hide LittleEndian;
    }

    /** The fast way to carry out a literal of n bytes; declining changes nothing. */
    method TryFastLiteral(w: Writer, n: nat) returns (ok: bool)
      requires Valid() && w.Valid() && Apart(w)
      modifies this`ip, w.Footprint()
      ensures Valid() && w.Valid() && w.Limit() == old(w.Limit())
      ensures ok ==> n <= 16 && ipLimit - ip >= MAXIMUM_TAG_LENGTH && |w.Output()| == |old(w.Output())| + n
      ensures ok ==> Outcome(w) == old(OutcomeAfter(LiteralTag(n), w))
      ensures !ok ==> ip == old(ip) && w.Output() == old(w.Output())
      ensures !ok ==> Pending() == old(Pending()) && Window() == old(Window())
    {
      hide Decode, Concat, Pending, Window, Valid;
      WindowIsPrefix();
      ghost var pending := Pending();
      assert n <= |Window()| ==> Window()[..n] == pending[..n];
      ok := w.TryFastAppend(Window(), n);
      if ok { Advance(n); }
    }

    /** More has been written than `out`; or as much, and less than `left` is left of the source;
        or as much, and the window is shorter. */
    ghost predicate Beyond(w: Writer, out: nat, left: int, window: int)
      requires w.Valid()
      reads this, reader, w.Footprint()
    {
      |w.Output()| > out || (|w.Output()| == out && (Left() < left || (Left() == left && ipLimit - ip < window)))
    }

    /** The literal branch, up to its refill. `fast` means that none is needed. */
    method DoLiteral(w: Writer) returns (ok: bool, fast: bool)
      requires Valid() && Tagged() && w.Valid() && Apart(w) && ByteAt(0) % 4 == 0
      modifies this, reader, w.Footprint()
      ensures eof == old(eof) && reader.Small() == old(reader.Small())
      ensures ok ==> Valid() && w.Valid() && w.Limit() == old(w.Limit())
      ensures ok ==> Beyond(w, |old(w.Output())|, old(Left()), old(ipLimit - ip))
      ensures ok && fast ==> ipLimit - ip >= MAXIMUM_TAG_LENGTH
      ensures ok && reader.Small() ==> Outcome(w) == old(Outcome(w))
      ensures !ok && reader.Small() ==> old(Outcome(w)) == None
    {
      hide Decode, DecodeTag, ReadTag, TagSize, LittleEndian, Concat, Pending, Window, Valid, Outcome, PastTag, Tagged, ByteAt, Narrow;
      var c;
      ghost var window, goal;
      c, window, goal := PassTagByte(w);
      ok, fast := FinishLiteral(w, c, window, goal);
    }

    /** Just past the first byte c of a literal tag, from which decoding would lead to `goal`. */
    ghost predicate PastTag(w: Writer, c: Byte, window: seq<Byte>, goal: Option<seq<Byte>>)
      reads this, reader, scratch, w.Footprint()
    {
      && Valid() && w.Valid() && c % 4 == 0 && TagSize(c) <= |window| && window[0] == c
      && Window() == window[1..] && |window| - 1 == ipLimit - ip && Readable(0) && TagSize(c) - 1 <= |Pending()|
      && goal == DecodeTag(ReadTag(window), Pending()[TagSize(c) - 1..], w.Output(), w.Limit())
      && (c / 4 + 1 <= 16 ==> goal == OutcomeAfter(LiteralTag(c / 4 + 1), w))
    }

    /** The first byte of a literal tag. */
    method PassTagByte(w: Writer) returns (c: Byte, ghost window: seq<Byte>, ghost goal: Option<seq<Byte>>)
      requires Valid() && Tagged() && w.Valid() && Apart(w) && ByteAt(0) % 4 == 0
      modifies this`ip
      ensures PastTag(w, c, window, goal) && goal == old(Outcome(w)) && ip == old(ip) + 1
    {
      hide Decode, DecodeTag, ReadTag, LittleEndian, Concat, Pending, Window, Valid;
      LiteralAtIp(w);
      c := ByteAt(0);
      window, goal := Window(), Outcome(w);
      IpInside();
      WindowIsPrefix();
      Advance(1);
    }

    /** One tag of either kind. */
    method DoTag(w: Writer) returns (ok: bool, fast: bool)
      requires Valid() && Tagged() && w.Valid() && Apart(w)
      modifies this, reader, w.Footprint()
      ensures eof == old(eof) && reader.Small() == old(reader.Small())
      ensures ok ==> Valid() && w.Valid() && w.Limit() == old(w.Limit())
      ensures ok ==> Beyond(w, |old(w.Output())|, old(Left()), old(ipLimit - ip))
      ensures ok && fast ==> ipLimit - ip >= MAXIMUM_TAG_LENGTH
      ensures ok && reader.Small() ==> Outcome(w) == old(Outcome(w))
      ensures !ok && reader.Small() ==> old(Outcome(w)) == None
    {
      hide Pending, Outcome, Decode, Concat, Narrow;
      fast := false;
      if ByteAt(0) % 4 == 0 {
        ok, fast := DoLiteral(w);
      } else {
        ok := DoCopy(w);
      }
    }

    /** One tag, and what it takes to have the next one buffered. */
    method Step(w: Writer) returns (more: bool, ends: bool)
      requires Valid() && !eof && Tagged() && w.Valid() && Apart(w)
      modifies this, reader, scratch, w.Footprint()
      ensures reader.Small() == old(reader.Small()) && (reader.Small() ==> ends)
      ensures more ==> ends && Valid() && Tagged() && !eof
      ensures more || eof ==> w.Valid() && w.Limit() == old(w.Limit())
      ensures more ==> Beyond(w, |old(w.Output())|, old(Left()), old(ipLimit - ip))
      ensures more && reader.Small() ==> Outcome(w) == old(Outcome(w))
      ensures eof ==> !more && reader.Small() && Decode([], w.Output(), w.Limit()) == old(Outcome(w))
      ensures !more && !eof && reader.Small() ==> old(Outcome(w)) == None
    {
      hide Decode, DecodeTag, ReadTag, LittleEndian, Concat, Pending, Narrow;
      var ok, fast := DoTag(w);
      more, ends := false, true;
      if ok {
        if !fast {
          NoTag(Pending(), w.Output(), w.Limit());
          more, ends := MaybeRefill();
        } else {
          WindowIsPrefix();
          more := true;
        }
      }
    }

    /** DecompressAllTags: runs the tags until the input ends or one of them fails. When it does
        not come back, `ends` is false. */
    method DecompressAllTags(w: Writer) returns (ends: bool)
      requires Valid() && !eof && w.Valid() && Apart(w)
      modifies this, reader, scratch, w.Footprint()
      ensures old(reader.Small()) ==> ends
      ensures eof ==> ends && old(reader.Small()) && w.Valid() && w.Limit() == old(w.Limit())
      ensures eof ==> Decode([], w.Output(), w.Limit()) == old(Outcome(w))
      ensures !eof && old(reader.Small()) ==> old(Outcome(w)) == None
    {
      hide Decode, DecodeTag, ReadTag, LittleEndian, Concat, Narrow, Pending, Window, Tagged, Valid;
      ghost var goal, limit := Outcome(w), w.Limit();
      NoTag(Pending(), w.Output(), w.Limit());
      var more;
      more, ends := MaybeRefill();
      while more
        invariant reader.Small() == old(reader.Small()) && (reader.Small() ==> ends)
        invariant more ==> Valid() && Tagged() && !eof && w.Valid() && w.Limit() == limit
        invariant more && reader.Small() ==> Outcome(w) == goal
        invariant eof ==> !more && ends && reader.Small() && w.Valid() && w.Limit() == limit && Decode([], w.Output(), w.Limit()) == goal
        invariant !more && !eof && reader.Small() ==> goal == None
        decreases more, if more then limit - |w.Output()| else 0, if more then Left() else 0, ipLimit - ip
      {
        PeekedFits();
        more, ends := Step(w);
      }
    }

    /** The literal tag at ip, seen from just past its first byte. */
    lemma LiteralAtIp(w: Writer)
      requires Valid() && Tagged() && w.Valid() && ByteAt(0) % 4 == 0
      ensures HasTag(Pending()) && Window()[0] == ByteAt(0) && TagSize(ByteAt(0)) <= |Window()|
      ensures Outcome(w) == DecodeTag(ReadTag(Window()), Pending()[1..][TagSize(ByteAt(0)) - 1..], w.Output(), w.Limit())
      ensures ByteAt(0) / 4 + 1 <= 16 ==>
        Outcome(w) == DecodeTag(LiteralTag(ByteAt(0) / 4 + 1), Pending()[1..], w.Output(), w.Limit())
    {
      TagAtIp(w);
      WindowIsPrefix();
      ShortLiteral(Window(), Pending());
    }

    /** The literal whose tag byte c has just been passed over. */
    method FinishLiteral(w: Writer, c: Byte, ghost window: seq<Byte>, ghost goal: Option<seq<Byte>>)
      returns (ok: bool, fast: bool)
      requires Apart(w) && PastTag(w, c, window, goal)
      modifies this, reader, w.Footprint()
      ensures eof == old(eof) && reader.Small() == old(reader.Small())
      ensures ok ==> Valid() && w.Valid() && w.Limit() == old(w.Limit())
      ensures ok ==> Beyond(w, |old(w.Output())|, old(Left()), old(ipLimit - ip) + 1)
      ensures ok && fast ==> ipLimit - ip >= MAXIMUM_TAG_LENGTH
      ensures if ok then reader.Small() ==> Outcome(w) == goal else reader.Small() ==> goal == None
    {
      hide Decode, DecodeTag, ReadTag, TagSize, LittleEndian, Concat, Pending, Window, Valid, Narrow;
      fast := TryFastLiteral(w, c / 4 + 1);
      ok := true;
      if !fast { ok := SlowLiteral(w, c, window, goal); }
    }

    /** A literal that was not appended fast; ip is just past its tag byte c. */
    method SlowLiteral(w: Writer, c: Byte, ghost window: seq<Byte>, ghost goal: Option<seq<Byte>>) returns (ok: bool)
      requires Valid() && w.Valid() && Apart(w) && c % 4 == 0 && TagSize(c) <= |window| && window[0] == c
      requires Window() == window[1..] && |window| - 1 == ipLimit - ip && Readable(0) && TagSize(c) - 1 <= |Pending()|
      requires goal == DecodeTag(ReadTag(window), Pending()[TagSize(c) - 1..], w.Output(), w.Limit())
      modifies this, reader, w.Footprint()
      ensures eof == old(eof) && reader.Small() == old(reader.Small())
      ensures ok ==> Valid() && w.Valid() && w.Limit() == old(w.Limit())
      ensures ok ==> Beyond(w, |old(w.Output())|, old(Left()), old(ipLimit - ip) + 1)
      ensures if ok then reader.Small() ==> Outcome(w) == goal else reader.Small() ==> goal == None
    {
      hide Decode, DecodeTag, ReadTag, TagSize, LittleEndian, Concat, Pending, Window, Valid, Readable, Narrow;
      var n := LiteralLength(c, window);
      ok := AppendLiteral(w, n);
    }
  }

  lemma LiteralNeedsBytes(n: nat, out: seq<Byte>, limit: nat)
    requires n > 0
    ensures DecodeTag(LiteralTag(n), [], out, limit) == None
  {
  }

  /** Without a whole tag, decoding ends well only at the very end. */
  lemma NoTag(s: seq<Byte>, out: seq<Byte>, limit: nat)
    ensures !HasTag(s) && s != [] ==> Decode(s, out, limit) == None
  {
  }

  lemma ShortLiteral(window: seq<Byte>, pending: seq<Byte>)
    requires HasTag(window) && window <= pending && window[0] % 4 == 0
    ensures window[0] / 4 + 1 <= 16 ==> TagSize(window[0]) == 1 && ReadTag(window) == LiteralTag(window[0] / 4 + 1)
    ensures pending[1..][TagSize(window[0]) - 1..] == pending[TagSize(window[0])..]
  {
  }

  /** The fields of a copy tag, table entry and trailing bytes put together. */
  lemma CopyFields(s: seq<Byte>)
    requires HasTag(s) && s[0] % 4 != 0
    ensures ReadTag(s) == CopyTag(CharTable(s[0]) / 256 % 8 * 256 + LittleEndian(s[1..TagSize(s[0])]), CharTable(s[0]) % 256)
    ensures CharTable(s[0]) / 256 % 8 * 256 + LittleEndian(s[1..TagSize(s[0])]) < WORD32 && CharTable(s[0]) % 256 >= 1
  {
    EntryFields(s[0]);
    TrailerFits(s[0], s[1..TagSize(s[0])]);
  }

  lemma TrailerFits(c: Byte, trailer: seq<Byte>)
    requires |trailer| == TagSize(c) - 1
    ensures LittleEndian(trailer) < WORD32
    ensures c % 4 == 1 ==> LittleEndian(trailer) < 256
  {
    Pow2Word();
    Pow2Small();
  }

  lemma Pow2Small()
    ensures Pow2(0) == 1 && Pow2(8) == 256 && Pow2(16) == 0x1_0000 && Pow2(24) == 0x100_0000
  {
  }

  /** k bytes of a header have been read and it has not ended. */
  ghost predicate Scanned(s: seq<Byte>, k: nat, result: nat) {
    && k <= 5 && k <= |s| && (forall j :: 0 <= j < k ==> s[j] >= 128)
    && result == VarintSum(s[..k]) % WORD32
  }

  lemma ScannedStep(s: seq<Byte>, k: nat, result: nat)
    requires Scanned(s, k, result) && k < 5 && k < |s|
    ensures s[k] >= 128 ==> Scanned(s, k + 1, (result + Pow128(k) * Low7(s[k])) % WORD32)
    ensures s[k] < 128 ==> LenientHeader(s) == Some(Header((result + Pow128(k) * Low7(s[k])) % WORD32, k + 1))
  {
    HeaderStep(s, k);
    HeaderWrap(VarintSum(s[..k]), Pow128(k) * Low7(s[k]));
  }

  lemma HeaderWrap(a: nat, b: nat)
    ensures (a % WORD32 + b) % WORD32 == (a + b) % WORD32
    ensures a + b < WORD32 ==> (a + b) % WORD32 == a + b
  {
  }
}
