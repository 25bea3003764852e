/** The compressed format: what a whole byte string of tags means, independent of
    any buffering, table look-up or word-sized copying. */
module SnappyFormat {
  import opened Bytes

  /** A decoded tag: a literal run of n bytes follows, or n bytes are repeated from offset back. */
  datatype Tag = LiteralTag(n: nat) | CopyTag(offset: nat, n: nat)

  /** Number of bytes a tag occupies, its first byte c included. */
  function TagSize(c: Byte): (n: nat)
    ensures 1 <= n <= 5
  {
    match c % 4
    case 0 => if c / 4 < 60 then 1 else c / 4 - 58
    case 1 => 2
    case 2 => 3
    case _ => 5
  }

  /** The tag in s[..TagSize(s[0])]. A long literal's length is computed in 32 bits, so
      the largest stored length wraps to an empty literal. */
  function ReadTag(s: seq<Byte>): (t: Tag)
    requires |s| > 0 && TagSize(s[0]) <= |s|
  {
    var c := s[0];
    var extra := LittleEndian(s[1..TagSize(c)]);
    match c % 4
    case 0 => LiteralTag(if c / 4 < 60 then c / 4 + 1 else (extra + 1) % WORD32)
    case 1 => CopyTag(c / 32 * 256 + extra, c / 4 % 8 + 4)
    case _ => CopyTag(extra, c / 4 + 1)
  }

  /** out followed by n bytes, each equal to the byte `offset` places before it. */
  function CopyFrom(out: seq<Byte>, offset: nat, n: nat): (r: seq<Byte>)
    requires 1 <= offset <= |out|
    ensures |r| == |out| + n && r[..|out|] == out
    decreases n
  {
    if n == 0 then out else CopyFrom(out + [out[|out| - offset]], offset, n - 1)
  }

  lemma {:induction false} CopyFromRepeats(out: seq<Byte>, offset: nat, n: nat, i: nat)
    requires 1 <= offset <= |out| <= i < |out| + n
    ensures CopyFrom(out, offset, n)[i] == CopyFrom(out, offset, n)[i - offset]
    decreases n
  {
    var out' := out + [out[|out| - offset]];
    var r := CopyFrom(out', offset, n - 1);
    if i == |out| {
      assert r[i] == r[..|out'|][i] && r[i - offset] == r[..|out'|][i - offset];
    } else {
      CopyFromRepeats(out', offset, n - 1, i);
    }
  }

  /** CopyFrom is the only extension of out in which every new byte repeats the one `offset` back. */
  lemma {:induction false} CopyFromUnique(out: seq<Byte>, offset: nat, n: nat, r: seq<Byte>)
    requires 1 <= offset <= |out|
    requires |r| == |out| + n && r[..|out|] == out
    requires forall i :: |out| <= i < |r| ==> r[i] == r[i - offset]
    ensures r == CopyFrom(out, offset, n)
    decreases n
  {
    if n > 0 {
      var out' := out + [out[|out| - offset]];
      assert r[|out|] == r[|out| - offset] == r[..|out|][|out| - offset];
      assert r[..|out'|] == out';
      CopyFromUnique(out', offset, n - 1, r);
    } else {
      assert r == r[..|out|];
    }
  }

  /** CopyFrom is exactly what continues out with n bytes that repeat those `offset` back. */
  lemma CopyFromExactly(out: seq<Byte>, offset: nat, n: nat, r: seq<Byte>)
    requires 1 <= offset <= |out|
    ensures r == CopyFrom(out, offset, n) <==>
            |r| == |out| + n && r[..|out|] == out && forall i :: |out| <= i < |r| ==> r[i] == r[i - offset]
  {
    if r == CopyFrom(out, offset, n) {
      forall i | |out| <= i < |r| ensures r[i] == r[i - offset] { CopyFromRepeats(out, offset, n, i); }
    } else if |r| == |out| + n && r[..|out|] == out && forall i :: |out| <= i < |r| ==> r[i] == r[i - offset] {
      CopyFromUnique(out, offset, n, r);
    }
  }

  /** A copy may be cut into pieces, provided each keeps the same offset. */
  lemma {:induction false} CopyFromSplit(out: seq<Byte>, offset: nat, n: nat, m: nat)
    requires 1 <= offset <= |out|
    ensures CopyFrom(out, offset, n + m) == CopyFrom(CopyFrom(out, offset, n), offset, m)
    decreases n
  {
    if n > 0 {
      CopyFromSplit(out + [out[|out| - offset]], offset, n - 1, m);
    }
  }

  /** The whole-string decoder: runs the tags of s after `out` has been produced, and
      succeeds when s is used up with exactly `limit` bytes produced. */
  function Decode(s: seq<Byte>, out: seq<Byte>, limit: nat): (r: Option<seq<Byte>>)
    ensures r.Some? ==> |r.value| == limit && out <= r.value
    decreases |s|, 0
  {
    if s == [] then (if |out| == limit then Some(out) else None)
    else if |s| < TagSize(s[0]) then None
    else DecodeTag(ReadTag(s), s[TagSize(s[0])..], out, limit)
  }

  /** What one tag does, s being the bytes after it. */
  function DecodeTag(t: Tag, s: seq<Byte>, out: seq<Byte>, limit: nat): (r: Option<seq<Byte>>)
    ensures r.Some? ==> |r.value| == limit && out <= r.value
    decreases |s|, 1
  {
    match t
    case LiteralTag(n) =>
      if |s| < n || |out| + n > limit then None
      else Decode(s[n..], out + s[..n], limit)
    case CopyTag(offset, n) =>
      if offset == 0 || offset > |out| || |out| + n > limit then None
      else
        var out' := CopyFrom(out, offset, n);
        assert out == out'[..|out|];
        Decode(s, out', limit)
  }

  /** A literal may be handed over in pieces. */
  lemma DecodeLiteralSplit(s: seq<Byte>, k: nat, n: nat, out: seq<Byte>, limit: nat)
    requires k <= |s| && k <= n && |out| + k <= limit
    ensures DecodeTag(LiteralTag(n), s, out, limit)
         == DecodeTag(LiteralTag(n - k), s[k..], out + s[..k], limit)
  {
    if n <= |s| && |out| + n <= limit {
      assert s[k..][n - k..] == s[n..];
      assert out + s[..k] + s[k..][..n - k] == out + s[..n];
    }
  }

  lemma DecodeLiteralDone(s: seq<Byte>, out: seq<Byte>, limit: nat)
    requires |out| <= limit
    ensures DecodeTag(LiteralTag(0), s, out, limit) == Decode(s, out, limit)
  {
    assert s[0..] == s && out + s[..0] == out;
  }

  /** `code` takes the decoder from having produced `from` to having produced `to`,
      whatever follows and whatever the final length is. */
  ghost predicate Emits(code: seq<Byte>, from: seq<Byte>, to: seq<Byte>)
  {
    && |from| <= |to|
    && forall tail: seq<Byte>, limit: nat | |to| <= limit ::
         Decode(code + tail, from, limit) == Decode(tail, to, limit)
  }

  lemma EmitsNothing(out: seq<Byte>)
    ensures Emits([], out, out)
  {
    forall tail: seq<Byte>, limit: nat | |out| <= limit
      ensures Decode([] + tail, out, limit) == Decode(tail, out, limit)
    {
      assert [] + tail == tail;
    }
  }

  lemma EmitsChain(c1: seq<Byte>, c2: seq<Byte>, a: seq<Byte>, b: seq<Byte>, c: seq<Byte>)
    requires Emits(c1, a, b) && Emits(c2, b, c)
    ensures Emits(c1 + c2, a, c)
  {
    hide Decode;
    forall tail: seq<Byte>, limit: nat | |c| <= limit
      ensures Decode(c1 + c2 + tail, a, limit) == Decode(tail, c, limit)
    {
      Assoc(c1, c2, tail);
    }
  }

  /** The tag t, with the literal bytes `body` after it, turns output a into output b. */
  ghost predicate Produces(t: Tag, body: seq<Byte>, a: seq<Byte>, b: seq<Byte>) {
    match t
    case LiteralTag(n) => |body| == n && b == a + body
    case CopyTag(offset, n) => body == [] && 1 <= offset <= |a| && b == CopyFrom(a, offset, n)
  }

  lemma EmitsOneTag(tag: seq<Byte>, body: seq<Byte>, a: seq<Byte>, b: seq<Byte>)
    requires |tag| > 0 && TagSize(tag[0]) == |tag| && |a| <= |b|
    requires Produces(ReadTag(tag), body, a, b)
    ensures Emits(tag + body, a, b)
  {
    hide LittleEndian;
    forall tail: seq<Byte>, limit: nat | |b| <= limit
      ensures Decode(tag + body + tail, a, limit) == Decode(tail, b, limit)
    {
      var s := tag + body + tail;
      assert s[1..|tag|] == tag[1..|tag|];
      assert ReadTag(s) == ReadTag(tag);
      assert s[|tag|..] == body + tail;
      assert (body + tail)[|body|..] == tail && (body + tail)[..|body|] == body;
    }
  }
}
