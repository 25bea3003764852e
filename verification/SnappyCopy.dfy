/** Copies inside one buffer whose source and target may overlap. */
module SnappyCopy {
  import opened Bytes
  import opened SnappyFormat

  /** Most bytes IncrementalCopyFastPath may write past the end of the copy. */
  const COPY_OVERFLOW := 10

  /** UnalignedCopy64: eight bytes are loaded, then stored. */
  method Copy64(a: array<Byte>, src: nat, op: nat)
    requires src + 8 <= a.Length && op + 8 <= a.Length
    modifies a
    ensures forall i :: 0 <= i < a.Length && !(op <= i < op + 8) ==> a[i] == old(a[i])
    ensures forall i :: op <= i < op + 8 ==> a[i] == old(a[i - op + src])
  {
    var word := a[src..src + 8];
    forall t | 0 <= t < 8 {
      a[op + t] := word[t];
    }
  }

  /** IncrementalCopy: byte by byte. */
  method IncrementalCopy(a: array<Byte>, src0: nat, op0: nat, n: nat)
    requires src0 < op0 && 1 <= n && op0 + n <= a.Length
    modifies a
    ensures a[..op0 + n] == CopyFrom(old(a[..op0]), op0 - src0, n)
    ensures a[op0 + n..] == old(a[op0 + n..])
  {
    hide CopyFrom;
    var src, op, len := src0, op0, n;
    ghost var base, offset := a[..op0], op0 - src0;
    while len > 0
      invariant 0 <= len <= n && op == op0 + (n - len) && src == op - offset
      invariant CopyFrom(a[..op], offset, len) == CopyFrom(base, offset, n)
      invariant a[op0 + n..] == old(a[op0 + n..])
    {
      ghost var done := a[..op];
      CopyFromStep(done, offset, len);
      a[op] := a[src];
      assert a[..op + 1] == done + [done[op - offset]];
      op, src, len := op + 1, src + 1, len - 1;
    }
    CopyFromNone(a[..op], offset);
  }

  lemma CopyFromStep(out: seq<Byte>, offset: nat, n: nat)
    requires 1 <= offset <= |out| && n > 0
    ensures CopyFrom(out, offset, n) == CopyFrom(out + [out[|out| - offset]], offset, n - 1)
  {
  }

  lemma CopyFromNone(out: seq<Byte>, offset: nat)
    requires 1 <= offset <= |out|
    ensures CopyFrom(out, offset, 0) == out
  {
  }

  /** A buffer in which every byte from op0 to op repeats the one d places before it, and
      whose last d of those bytes equal the d bytes at src. */
  ghost predicate Periodic(s: seq<Byte>, op0: nat, d: nat, src: nat, op: nat) {
    && 1 <= d <= op0 <= op <= |s|
    && op0 - d <= src && src + d <= op
    && (forall i :: op0 <= i < op ==> s[i] == s[i - d])
    && (forall i :: src <= i < src + d ==> s[i] == s[i - src + op - d])
  }

  /** s' is s after eight bytes moved from src to op. */
  ghost predicate Moved(s: seq<Byte>, s': seq<Byte>, src: nat, op: nat) {
    && |s| == |s'| && src + 8 <= |s| && op + 8 <= |s|
    && (forall i :: 0 <= i < |s| && !(op <= i < op + 8) ==> s'[i] == s[i])
    && (forall i :: op <= i < op + 8 ==> s'[i] == s[i - op + src])
  }

  /** While source and target are less than eight apart, one move doubles the pattern. */
  lemma PatternDoubles(s: seq<Byte>, s': seq<Byte>, op0: nat, d: nat, src: nat, op: nat)
    requires Periodic(s, op0, d, src, op) && Moved(s, s', src, op) && src == op0 - d && op - src < 8
    ensures Periodic(s', op0, d, src, op + (op - src))
  {
  }

  /** Eight or more apart, one move extends the pattern by eight bytes. */
  lemma PatternGrows(s: seq<Byte>, s': seq<Byte>, op0: nat, d: nat, src: nat, op: nat)
    requires Periodic(s, op0, d, src, op) && Moved(s, s', src, op) && op - src >= 8
    ensures Periodic(s', op0, d, src + 8, op + 8)
  {
  }

  method CopyStep(a: array<Byte>, src: nat, op: nat, ghost op0: nat, ghost end: nat)
    requires src + 8 <= a.Length && op0 <= op && op + 8 <= end <= a.Length
    modifies a
    ensures Moved(old(a[..]), a[..], src, op)
    ensures forall i :: 0 <= i < op0 || end <= i < a.Length ==> a[i] == old(a[i])
  {
    Copy64(a, src, op);
  }

  method DoubleStep(a: array<Byte>, src: nat, op: nat, ghost op0: nat, ghost d: nat, ghost end: nat)
    requires src + 8 <= a.Length && op + 8 <= end <= a.Length
    requires Periodic(a[..], op0, d, src, op) && src == op0 - d && op - src < 8
    modifies a
    ensures Periodic(a[..], op0, d, src, op + (op - src))
    ensures forall i :: 0 <= i < op0 || end <= i < a.Length ==> a[i] == old(a[i])
  {
    ghost var s := a[..];
    CopyStep(a, src, op, op0, end);
    PatternDoubles(s, a[..], op0, d, src, op);
  }

  method GrowStep(a: array<Byte>, src: nat, op: nat, ghost op0: nat, ghost d: nat, ghost end: nat)
    requires src + 8 <= a.Length && op + 8 <= end <= a.Length
    requires Periodic(a[..], op0, d, src, op) && op - src >= 8
    modifies a
    ensures Periodic(a[..], op0, d, src + 8, op + 8)
    ensures forall i :: 0 <= i < op0 || end <= i < a.Length ==> a[i] == old(a[i])
  {
    ghost var s := a[..];
    CopyStep(a, src, op, op0, end);
    PatternGrows(s, a[..], op0, d, src, op);
  }

  /** The first loop of IncrementalCopyFastPath: the pattern is doubled until it is eight long. */
  method WidenPattern(a: array<Byte>, src: nat, op0: nat, n: nat, ghost end: nat) returns (op: nat, len: int)
    requires src < op0 && 1 <= n && op0 + n + COPY_OVERFLOW == end <= a.Length
    modifies a
    ensures op - src >= 8 && op - op0 == n - len && op <= op0 + n + COPY_OVERFLOW
    ensures Periodic(a[..], op0, op0 - src, src, op)
    ensures forall i :: 0 <= i < op0 || end <= i < a.Length ==> a[i] == old(a[i])
  {
    op, len := op0, n;
    ghost var d := op0 - src;
    PeriodicStart(a[..], op0, d);
    hide Periodic, Moved;
    while op - src < 8
      invariant op - op0 == n - len && op <= end
      invariant op - src == d || op - src == 2 * d || op - src == 4 * d || op - src == 8 * d
      invariant Periodic(a[..], op0, d, src, op)
      invariant forall i :: 0 <= i < op0 || end <= i < a.Length ==> a[i] == old(a[i])
      decreases 8 - (op - src)
    {
      DoubleStep(a, src, op, op0, d, end);
      len := len - (op - src);
      op := op + (op - src);
    }
  }

  /** IncrementalCopyFastPath: eight bytes at a time, first doubling a short pattern. It
      writes the same bytes as IncrementalCopy, and at most ten past their end. */
  method IncrementalCopyFastPath(a: array<Byte>, src0: nat, op0: nat, n: nat)
    requires src0 < op0 && 1 <= n && op0 + n + COPY_OVERFLOW <= a.Length
    modifies a
    ensures a[..op0 + n] == CopyFrom(old(a[..op0]), op0 - src0, n)
    ensures a[op0 + n + COPY_OVERFLOW..] == old(a[op0 + n + COPY_OVERFLOW..])
  {
    ghost var d, end := op0 - src0, op0 + n + COPY_OVERFLOW;
    var src := src0;
    var op, len := WidenPattern(a, src, op0, n, end);
    hide Periodic, Moved, CopyFrom;
    while len > 0
      invariant src0 <= src && op - src >= 8 && op - op0 == n - len && op <= end
      invariant Periodic(a[..], op0, d, src, op)
      invariant forall i :: 0 <= i < op0 || end <= i < a.Length ==> a[i] == old(a[i])
    {
      GrowStep(a, src, op, op0, d, end);
      src, op, len := src + 8, op + 8, len - 8;
    }
    PeriodicCopy(a[..], old(a[..op0]), d, src, op, n);
  }

  lemma PeriodicStart(s: seq<Byte>, op0: nat, d: nat)
    requires 1 <= d <= op0 <= |s|
    ensures Periodic(s, op0, d, op0 - d, op0)
  {
  }

  lemma PeriodicCopy(s: seq<Byte>, out: seq<Byte>, d: nat, src: nat, op: nat, n: nat)
    requires |out| + n <= op && Periodic(s, |out|, d, src, op) && s[..|out|] == out
    ensures s[..|out| + n] == CopyFrom(out, d, n)
  {
    hide CopyFrom;
    CopyFromUnique(out, d, n, s[..|out| + n]);
  }

  /** A copy of at most sixteen bytes from at least eight back, as two eight-byte moves. */
  method CopyShort(a: array<Byte>, src: nat, op: nat, n: nat)
    requires src + 8 <= op && 1 <= n <= 16 && op + 16 <= a.Length
    modifies a
    ensures a[..op + n] == CopyFrom(old(a[..op]), op - src, n)
    ensures a[op + 16..] == old(a[op + 16..])
  {
    Copy64(a, src, op);
    Copy64(a, src + 8, op + 8);
    CopyFromUnique(old(a[..op]), op - src, n, a[..op + n]);
  }
}
