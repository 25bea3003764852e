/** The compressor's output: literal and copy tags, written in place. */
module SnappyEmit {
  import opened Bytes
  import opened SnappyFormat

  /** n in as few bytes as it takes, least significant first. */
  function LengthBytes(n: nat): seq<Byte> {
    if n == 0 then [] else [n % 256] + LengthBytes(n / 256)
  }

  lemma {:induction false} LengthBytesValue(n: nat)
    ensures LittleEndian(LengthBytes(n)) == n
  {
    if n > 0 {
      LengthBytesValue(n / 256);
      assert LengthBytes(n)[1..] == LengthBytes(n / 256);
    }
  }

  lemma LengthBytesSize(n: nat)
    requires n < WORD32
    ensures |LengthBytes(n)| <= 4
    ensures n > 0 ==> |LengthBytes(n)| >= 1
    ensures n < 0x100 ==> |LengthBytes(n)| <= 1
    ensures n < 0x1_0000 ==> |LengthBytes(n)| <= 2
  {
    var n1, n2, n3 := n / 256, n / 256 / 256, n / 256 / 256 / 256;
    assert |LengthBytes(n3)| <= 1;
    assert |LengthBytes(n2)| <= 2;
    assert |LengthBytes(n1)| <= 3;
  }

  function LiteralTagBytes(n: nat): (t: seq<Byte>)
    requires 1 <= n < 0x8000_0000
    ensures 1 <= |t| <= 5
  {
    LengthBytesSize(n - 1);
    if n <= 60 then [(n - 1) * 4] else [(59 + |LengthBytes(n - 1)|) * 4] + LengthBytes(n - 1)
  }

  /** Decoding a literal tag and its bytes appends exactly those bytes. */
  lemma LiteralEmits(data: seq<Byte>, out: seq<Byte>)
    requires 1 <= |data| < 0x8000_0000
    ensures Emits(LiteralTagBytes(|data|) + data, out, out + data)
  {
    hide Emits, Pow2, LittleEndian;
    var n := |data|;
    var t := LiteralTagBytes(n);
    if n > 60 {
      LengthBytesSize(n - 1);
      LengthBytesValue(n - 1);
      assert t[1..|t|] == LengthBytes(n - 1);
    }
    assert TagSize(t[0]) == |t|;
    assert ReadTag(t) == LiteralTag(n);
    EmitsOneTag(t, data, out, out + data);
  }

  function CopyTagBytes(offset: nat, n: nat): (t: seq<Byte>)
    requires 4 <= n <= 64 && offset < 0x1_0000
    ensures 2 <= |t| <= 3
  {
    if n < 12 && offset < 2048 then [1 + (n - 4) * 4 + offset / 256 * 32, offset % 256]
    else [2 + (n - 1) * 4, offset % 256, offset / 256]
  }

  lemma ShortCopyTag(offset: nat, n: nat, c: Byte)
    requires 4 <= n < 12 && offset < 2048 && c == 1 + (n - 4) * 4 + offset / 256 * 32
    ensures TagSize(c) == 2 && ReadTag([c, offset % 256]) == CopyTag(offset, n)
  {
    ModUnique(c, 4, offset / 256 * 8 + n - 4, 1);
    ModUnique(c, 32, offset / 256, 1 + (n - 4) * 4);
    ModUnique(c / 4, 8, offset / 256, n - 4);
    assert c % 4 == 1 && c / 32 == offset / 256 && c / 4 % 8 == n - 4;
    assert [c, offset % 256][1..2] == [offset % 256];
    assert LittleEndian([offset % 256]) == offset % 256;
  }

  lemma LongCopyTag(offset: nat, n: nat, c: Byte)
    requires 4 <= n <= 64 && offset < 0x1_0000 && c == 2 + (n - 1) * 4
    ensures TagSize(c) == 3 && ReadTag([c, offset % 256, offset / 256]) == CopyTag(offset, n)
  {
    assert c % 4 == 2 && c / 4 == n - 1;
    assert [c, offset % 256, offset / 256][1..3] == [offset % 256, offset / 256];
    assert LittleEndian([offset / 256]) == offset / 256;
    assert [offset % 256, offset / 256][1..] == [offset / 256];
  }

  lemma CopyTagEmits(offset: nat, n: nat, out: seq<Byte>)
    requires 4 <= n <= 64 && 1 <= offset < 0x1_0000 && offset <= |out|
    ensures Emits(CopyTagBytes(offset, n), out, CopyFrom(out, offset, n))
  {
    var t := CopyTagBytes(offset, n);
    if n < 12 && offset < 2048 {
      ShortCopyTag(offset, n, t[0]);
    } else {
      LongCopyTag(offset, n, t[0]);
    }
    EmitsOneTag(t, [], out, CopyFrom(out, offset, n));
    assert t + [] == t;
  }

  /** A match of any length as a run of copy tags, each of 4 to 64 bytes. */
  function CopyBytes(offset: nat, n: nat): (t: seq<Byte>)
    requires 4 <= n && offset < 0x1_0000
    ensures 6 * |t| + 10 <= 7 * n
  {
    if n >= 68 then CopyTagBytes(offset, 64) + CopyBytes(offset, n - 64)
    else if n > 64 then CopyTagBytes(offset, 60) + CopyTagBytes(offset, n - 60)
    else CopyTagBytes(offset, n)
  }

  /** Length of the first tag of a run of several. */
  function FirstPiece(n: nat): nat { if n >= 68 then 64 else 60 }

  lemma CopyBytesSplit(offset: nat, n: nat)
    requires 64 < n && offset < 0x1_0000
    ensures CopyBytes(offset, n) == CopyTagBytes(offset, FirstPiece(n)) + CopyBytes(offset, n - FirstPiece(n))
  {
  }

  /** Decoding the run of tags repeats n bytes from `offset` back, overlap included. */
  lemma {:induction false} CopyEmits(offset: nat, n: nat, out: seq<Byte>)
    requires 4 <= n && 1 <= offset < 0x1_0000 && offset <= |out|
    ensures Emits(CopyBytes(offset, n), out, CopyFrom(out, offset, n))
    decreases n
  {
    hide Emits, CopyTagBytes, CopyFrom;
    if n <= 64 {
      CopyTagEmits(offset, n, out);
    } else {
      var first := FirstPiece(n);
      CopyTagEmits(offset, first, out);
      CopyEmits(offset, n - first, CopyFrom(out, offset, first));
      CopyEmitsBoth(offset, n, out, first);
    }
  }

  lemma CopyEmitsBoth(offset: nat, n: nat, out: seq<Byte>, first: nat)
    requires 64 < n && 1 <= offset < 0x1_0000 && offset <= |out| && first == FirstPiece(n)
    requires Emits(CopyTagBytes(offset, first), out, CopyFrom(out, offset, first))
    requires Emits(CopyBytes(offset, n - first), CopyFrom(out, offset, first),
                   CopyFrom(CopyFrom(out, offset, first), offset, n - first))
    ensures Emits(CopyBytes(offset, n), out, CopyFrom(out, offset, n))
  {
    hide Emits, CopyFrom, CopyBytes, CopyTagBytes;
    CopyFromSplit(out, offset, first, n - first);
    EmitsChain(CopyTagBytes(offset, first), CopyBytes(offset, n - first), out, CopyFrom(out, offset, first), CopyFrom(out, offset, n));
    CopyBytesSplit(offset, n);
  }

  /** The buffer `before` with `code` written at p; nothing before p or from `end` on has changed. */
  ghost predicate Wrote(before: seq<Byte>, after: seq<Byte>, p: nat, code: seq<Byte>, end: nat) {
    && p + |code| <= end <= |after| == |before|
    && after[p..p + |code|] == code
    && after[..p] == before[..p]
    && after[end..] == before[end..]
  }

  /** Writing a tag and then the bytes after it is writing both. */
  lemma WroteBoth(b0: seq<Byte>, b1: seq<Byte>, b2: seq<Byte>, p: nat, tag: seq<Byte>, data: seq<Byte>, copied: nat, end: nat)
    requires Wrote(b0, b1, p, tag, p + |tag|) && |data| <= copied && p + |tag| + copied <= end <= |b0|
    requires |b2| == |b1| && p + |tag| + copied <= |b2| && b2[..p + |tag|] == b1[..p + |tag|]
    requires b2[p + |tag|..p + |tag| + |data|] == data
    requires b2[p + |tag| + copied..] == b1[p + |tag| + copied..]
    ensures Wrote(b0, b2, p, tag + data, end)
  {
  }

  /** Two overlapping-safe 8-byte moves: 16 bytes of input into op[p..]. */
  method Copy16(input: seq<Byte>, from: nat, op: array<Byte>, p: nat)
    requires from + 16 <= |input| && p + 16 <= op.Length
    modifies op
    ensures Wrote(old(op[..]), op[..], p, input[from..from + 16], p + 16)
  {
    for i := 0 to 16
      invariant op[..p] == old(op[..p])
      invariant op[p..p + i] == input[from..from + i]
      invariant op[p + 16..] == old(op[p + 16..])
    {
      op[p + i] := input[from + i];
      assert op[p..p + i + 1] == op[p..p + i] + [input[from + i]];
    }
  }

  /** memcpy from the input. */
  method CopyInput(input: seq<Byte>, from: nat, n: nat, op: array<Byte>, p: nat)
    requires from + n <= |input| && p + n <= op.Length
    modifies op
    ensures Wrote(old(op[..]), op[..], p, input[from..from + n], p + n)
  {
    for i := 0 to n
      invariant op[..p] == old(op[..p])
      invariant op[p..p + i] == input[from..from + i]
      invariant op[p + n..] == old(op[p + n..])
    {
      op[p + i] := input[from + i];
      assert op[p..p + i + 1] == op[p..p + i] + [input[from + i]];
    }
  }

  /** The length bytes of a literal too long for its first byte, and how many they are. */
  method EmitLengthBytes(n: nat, op: array<Byte>, p: nat) returns (q: nat)
    requires p + |LengthBytes(n)| <= op.Length
    modifies op
    ensures q == p + |LengthBytes(n)| && Wrote(old(op[..]), op[..], p, LengthBytes(n), q)
  {
    hide LengthBytes, Wrote;
    var m := n;
    q := p;
    assert op[p..q] + LengthBytes(m) == LengthBytes(m);
    while m > 0
      invariant p <= q && q + |LengthBytes(m)| == p + |LengthBytes(n)|
      invariant op[p..q] + LengthBytes(m) == LengthBytes(n)
      invariant forall i :: 0 <= i < p || q <= i < op.Length ==> op[i] == old(op[i])
    {
      ghost var done := op[p..q];
      LengthBytesStep(m);
      Assoc(done, [m % 256], LengthBytes(m / 256));
      op[q] := m % 256;
      q := q + 1;
      assert op[p..q] == done + [m % 256];
      m := m / 256;
    }
    LengthBytesStep(0);
    assert op[p..q] + [] == op[p..q];
    WroteHere(old(op[..]), op[..], p, LengthBytes(n), q);
  }

  lemma LengthBytesStep(n: nat)
    ensures LengthBytes(n) == if n == 0 then [] else [n % 256] + LengthBytes(n / 256)
  {
    hide LittleEndian;
  }

  /** Length bytes written first, and then the byte before them. */
  lemma TagByteFirst(b0: seq<Byte>, b1: seq<Byte>, b2: seq<Byte>, p: nat, rest: seq<Byte>, q: nat)
    requires Wrote(b0, b1, p + 1, rest, q) && q == p + 1 + |rest|
    requires |b2| == |b1| && b2 == b1[p := b2[p]]
    ensures Wrote(b0, b2, p, [b2[p]] + rest, q)
  {
  }

  /** The tag of a literal of n bytes. */
  method EmitLiteralTag(n: nat, op: array<Byte>, p: nat) returns (q: nat)
    requires 1 <= n < 0x8000_0000 && p + |LiteralTagBytes(n)| <= op.Length
    modifies op
    ensures q == p + |LiteralTagBytes(n)| && Wrote(old(op[..]), op[..], p, LiteralTagBytes(n), q)
  {
    hide LittleEndian, LengthBytes;
    if n - 1 < 60 {
      op[p] := (n - 1) * 4;
      q := p + 1;
    } else {
      LengthBytesSize(n - 1);
      ghost var b0 := op[..];
      q := EmitLengthBytes(n - 1, op, p + 1);
      ghost var b1 := op[..];
      var count := q - (p + 1);
      op[p] := (59 + count) * 4;
      TagByteFirst(b0, b1, op[..], p, LengthBytes(n - 1), q);
    }
  }

  /** EmitLiteral. The fast path writes up to 15 bytes past the literal, never past p + 17. */
  method EmitLiteral(input: seq<Byte>, from: nat, n: nat, fast: bool, op: array<Byte>, p: nat) returns (q: nat)
    requires 1 <= n < 0x8000_0000 && from + n <= |input|
    requires p + |LiteralTagBytes(n)| + n <= op.Length
    requires fast ==> from + 16 <= |input| && p + 17 <= op.Length
    modifies op
    ensures q == p + |LiteralTagBytes(n)| + n
    ensures Wrote(old(op[..]), op[..], p, LiteralTagBytes(n) + input[from..from + n], if fast && n <= 16 then p + 17 else q)
  {
    hide LengthBytes, Wrote;
    ghost var tag, data := LiteralTagBytes(n), input[from..from + n];
    ghost var b0 := op[..];
    q := EmitLiteralTag(n, op, p);
    ghost var b1 := op[..];
    if fast && n <= 16 {
      Copy16(input, from, op, q);
      SliceSlice(input, from, from + 16, 0, n);
      SliceSlice(op[..], q, q + 16, 0, n);
      WroteBoth(b0, b1, op[..], p, tag, data, 16, p + 17);
    } else {
      CopyInput(input, from, n, op, q);
      WroteBoth(b0, b1, op[..], p, tag, data, n, q + n);
    }
    q := q + n;
  }

  /** EmitCopyLessThan64. */
  method EmitCopyLessThan64(offset: nat, n: nat, op: array<Byte>, p: nat) returns (q: nat)
    requires 4 <= n <= 64 && offset < 0x1_0000
    requires p + |CopyTagBytes(offset, n)| <= op.Length
    modifies op
    ensures q == p + |CopyTagBytes(offset, n)|
    ensures Wrote(old(op[..]), op[..], p, CopyTagBytes(offset, n), q)
  {
    if n < 12 && offset < 2048 {
      op[p] := 1 + (n - 4) * 4 + offset / 256 * 32;
      op[p + 1] := offset % 256;
      q := p + 2;
    } else {
      op[p] := 2 + (n - 1) * 4;
      op[p + 1], op[p + 2] := offset % 256, offset / 256;
      q := p + 3;
    }
  }

  /** EmitCopy. */
  method EmitCopy(offset: nat, n0: nat, op: array<Byte>, p: nat) returns (q: nat)
    requires 4 <= n0 && offset < 0x1_0000
    requires p + |CopyBytes(offset, n0)| <= op.Length
    modifies op
    ensures q == p + |CopyBytes(offset, n0)|
    ensures Wrote(old(op[..]), op[..], p, CopyBytes(offset, n0), q)
  {
    hide CopyTagBytes, CopyBytes, Wrote;
    var n := n0;
    q := p;
    assert op[p..p] + CopyBytes(offset, n) == CopyBytes(offset, n);
    while n >= 68
      invariant 4 <= n && p <= q && q + |CopyBytes(offset, n)| == p + |CopyBytes(offset, n0)|
      invariant op[p..q] + CopyBytes(offset, n) == CopyBytes(offset, n0)
      invariant forall i :: 0 <= i < p || q <= i < op.Length ==> op[i] == old(op[i])
    {
      CopyBytesSplit(offset, n);
      q := EmitPiece(offset, 64, op, p, q, CopyBytes(offset, n - 64));
      n := n - 64;
    }
    if n > 64 {
      CopyBytesSplit(offset, n);
      q := EmitPiece(offset, 60, op, p, q, CopyBytes(offset, n - 60));
      n := n - 60;
    }
    CopyBytesLast(offset, n);
    q := EmitPiece(offset, n, op, p, q, []);
    assert op[p..q] + [] == op[p..q];
    WroteHere(old(op[..]), op[..], p, CopyBytes(offset, n0), q);
  }

  lemma Unchanged(before: seq<Byte>, after: seq<Byte>, p: nat, code: seq<Byte>, end: nat)
    requires Wrote(before, after, p, code, end)
    ensures forall i :: 0 <= i < p ==> after[i] == after[..p][i] == before[i]
    ensures forall i :: end <= i < |after| ==> after[i] == after[end..][i - end] == before[i]
  {
  }

  lemma WroteHere(before: seq<Byte>, after: seq<Byte>, p: nat, code: seq<Byte>, end: nat)
    requires p + |code| == end <= |after| == |before| && after[p..end] == code
    requires forall i :: 0 <= i < p || end <= i < |after| ==> after[i] == before[i]
    ensures Wrote(before, after, p, code, end)
  {
  }

  lemma CopyBytesLast(offset: nat, n: nat)
    requires 4 <= n <= 64 && offset < 0x1_0000
    ensures CopyBytes(offset, n) == CopyTagBytes(offset, n) + []
  {
    hide CopyTagBytes;
  }

  /** One tag of the run that began at p; `rest` is what remains to be written. */
  method EmitPiece(offset: nat, n: nat, op: array<Byte>, ghost p: nat, q0: nat, ghost rest: seq<Byte>) returns (q: nat)
    requires 4 <= n <= 64 && offset < 0x1_0000
    requires p <= q0 && q0 + |CopyTagBytes(offset, n)| <= op.Length
    modifies op
    ensures q == q0 + |CopyTagBytes(offset, n)|
    ensures forall i :: 0 <= i < p || q <= i < op.Length ==> op[i] == old(op[i])
    ensures op[p..q] + rest == old(op[p..q0]) + (CopyTagBytes(offset, n) + rest)
  {
    hide CopyTagBytes;
    q := EmitCopyLessThan64(offset, n, op, q0);
    Unchanged(old(op[..]), op[..], q0, CopyTagBytes(offset, n), q);
    assert op[p..q0] == old(op[p..q0]) && op[p..q] == op[p..q0] + op[q0..q];
    Assoc(op[p..q0], CopyTagBytes(offset, n), rest);
  }
}
