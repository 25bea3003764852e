/** The writer into a list of separate buffers. */
module SnappyScatter {
  import opened Bytes
  import opened SnappyFormat
  import opened SnappyCopy
  import opened SnappyFlat

  type IOVec = seq<array<Byte>>

  ghost predicate Separate(iov: IOVec) {
    forall i, j :: 0 <= i < j < |iov| ==> iov[i] != iov[j]
  }

  /** Total size of the first k buffers. */
  ghost function Start(iov: IOVec, k: nat): (n: nat)
    requires k <= |iov|
  {
    if k == 0 then 0 else Start(iov, k - 1) + iov[k - 1].Length
  }

  lemma {:induction false} StartMono(iov: IOVec, j: nat, k: nat)
    requires j <= k <= |iov|
    ensures Start(iov, j) <= Start(iov, k)
    ensures j < k ==> Start(iov, j) + iov[j].Length <= Start(iov, k)
    decreases k
  {
    if j < k {
      StartMono(iov, j, k - 1);
    }
  }

  /** The contents of the first k buffers, end to end. */
  ghost function Flat(iov: IOVec, k: nat): (s: seq<Byte>)
    requires k <= |iov|
    reads iov[..k]
    ensures |s| == Start(iov, k)
  {
    if k == 0 then [] else Flat(iov, k - 1) + iov[k - 1][..]
  }

  /** A stretch of buffer j, found in the contents of any longer list. */
  lemma {:induction false} FlatAt(iov: IOVec, k: nat, j: nat, a: nat, b: nat)
    requires j < k <= |iov| && a <= b <= iov[j].Length
    ensures Start(iov, j) + b <= Start(iov, k)
    ensures Flat(iov, k)[Start(iov, j) + a..Start(iov, j) + b] == iov[j][a..b]
    decreases k
  {
    StartMono(iov, j, k);
    if j < k - 1 {
      FlatAt(iov, k - 1, j, a, b);
      var s := Flat(iov, k - 1);
      assert Flat(iov, k)[Start(iov, j) + a..Start(iov, j) + b] == s[Start(iov, j) + a..Start(iov, j) + b];
    }
  }

  /** A copy that stays inside the last buffer is a copy in the whole. */
  lemma {:induction false} CopyFromPrefix(s: seq<Byte>, out: seq<Byte>, offset: nat, n: nat)
    requires 1 <= offset <= |out|
    ensures CopyFrom(s + out, offset, n) == s + CopyFrom(out, offset, n)
    decreases n
  {
    hide CopyFrom;
    if n > 0 {
      var b := out[|out| - offset];
      CopyFromStep(out, offset, n);
      CopyFromStep(s + out, offset, n);
      Assoc(s, out, [b]);
      CopyFromPrefix(s, out + [b], offset, n - 1);
    } else {
      CopyFromNone(out, offset);
      CopyFromNone(s + out, offset);
    }
  }

  /** Appending a stretch of the output that ends no later than the output does. */
  lemma CopyFromStretch(out: seq<Byte>, offset: nat, n: nat)
    requires 1 <= n <= offset <= |out|
    ensures CopyFrom(out, offset, n) == out + out[|out| - offset..|out| - offset + n]
  {
    CopyFromUnique(out, offset, n, out + out[|out| - offset..|out| - offset + n]);
  }

  lemma CopyFromRest(out: seq<Byte>, offset: nat, k: nat, n: nat)
    requires 1 <= offset <= |out| && k <= n
    ensures CopyFrom(CopyFrom(out, offset, k), offset, n - k) == CopyFrom(out, offset, n)
  {
    CopyFromSplit(out, offset, k, n - k);
  }

  lemma Regroup(out: seq<Byte>, rest: seq<Byte>, k: nat)
    requires k <= |rest|
    ensures (out + rest[..k]) + rest[k..] == out + rest
  {
  }

  class SnappyIOVecWriter {
    const iov: IOVec
    var currIndex: nat
    var currWritten: nat
    var totalWritten: nat
    var outputLimit: nat

    ghost predicate Valid()
      reads this
    {
      && Separate(iov)
      && outputLimit < WORD32 && totalWritten <= outputLimit <= Start(iov, |iov|)
      && (iov == [] ==> currIndex == 0 && currWritten == 0 && totalWritten == 0)
      && (iov != [] ==> currIndex < |iov| && currWritten <= iov[currIndex].Length
                        && totalWritten == Start(iov, currIndex) + currWritten)
    }

    /** Everything written so far, across the buffers. */
    ghost function Output(): (s: seq<Byte>)
      requires Valid()
      reads this, iov
      ensures |s| == totalWritten
    {
      if iov == [] then [] else Flat(iov, currIndex) + iov[currIndex][..currWritten]
    }

    constructor (buffers: IOVec)
      requires Separate(buffers)
      ensures iov == buffers && Valid() && totalWritten == 0 && outputLimit == 0 && currIndex == 0 && currWritten == 0
    {
      iov := buffers;
      currIndex, currWritten, totalWritten, outputLimit := 0, 0, 0, 0;
    }

    method SetExpectedLength(len: nat)
      requires Valid() && totalWritten == 0 && len <= Start(iov, |iov|) && len < WORD32
      modifies this`outputLimit
      ensures Valid() && outputLimit == len && Output() == []
    {
      outputLimit := len;
    }

    method CheckLength() returns (done: bool)
      requires Valid()
      ensures done <==> |Output()| == outputLimit
    {
      done := totalWritten == outputLimit;
    }

    /** While there is room below the limit, a full buffer is followed by another. */
    lemma NextExists()
      requires Valid() && totalWritten < outputLimit
      ensures iov != [] && (currWritten == iov[currIndex].Length ==> currIndex + 1 < |iov|)
    {
    }

    /** Moves on to the next buffer; the output does not change. */
    method NextBuffer()
      requires Valid() && totalWritten < outputLimit && currIndex < |iov| && currWritten == iov[currIndex].Length
      modifies this`currIndex, this`currWritten
      ensures Valid() && currIndex == old(currIndex) + 1 && currWritten == 0 && Output() == old(Output())
    {
      NextExists();
      currWritten := 0;
      currIndex := currIndex + 1;
      assert iov[currIndex - 1][..] == iov[currIndex - 1][..iov[currIndex - 1].Length];
    }

    /** Writes into the room left in the current buffer; up to `reach` bytes may be touched. */
    method Put(data: seq<Byte>, n: nat)
      requires Valid() && n <= |data| && currIndex < |iov| && totalWritten + n <= outputLimit
      requires currWritten + |data| <= iov[currIndex].Length
      modifies this`currWritten, this`totalWritten, iov[currIndex]
      ensures Valid() && Output() == old(Output()) + data[..n]
    {
      var buffer := iov[currIndex];
      forall i | 0 <= i < |data| {
        buffer[currWritten + i] := data[i];
      }
      ghost var front, written := Flat(iov, currIndex), old(buffer[..currWritten]);
      assert front == old(Flat(iov, currIndex));
      assert buffer[..currWritten + n] == written + data[..n];
      Assoc(front, written, data[..n]);
      currWritten := currWritten + n;
      totalWritten := totalWritten + n;
    }

    method Append(ip: seq<Byte>) returns (ok: bool)
      requires Valid()
      modifies this`currIndex, this`currWritten, this`totalWritten, iov
      ensures Valid() && (ok <==> |old(Output())| + |ip| <= outputLimit)
      ensures ok ==> Output() == old(Output()) + ip
      ensures currIndex >= old(currIndex)
    {
      if totalWritten + |ip| > outputLimit { return false; }
      AppendAll(ip);
      return true;
    }

    method AppendAll(ip: seq<Byte>)
      requires Valid() && totalWritten + |ip| <= outputLimit
      modifies this`currIndex, this`currWritten, this`totalWritten, iov
      ensures Valid() && Output() == old(Output()) + ip && currIndex >= old(currIndex)
    {
      var rest := ip;
      ghost var goal := Output() + ip;
      while rest != []
        invariant Valid() && Output() + rest == goal
        invariant totalWritten + |rest| <= outputLimit
        invariant old(currIndex) <= currIndex
        decreases |rest|, |iov| - currIndex
      {
        ghost var out := Output();
        var toWrite := AppendSome(rest);
        Regroup(out, rest, toWrite);
        rest := rest[toWrite..];
      }
    }

    /** As many bytes as the current buffer, or the next one if it is full, has room for. */
    method AppendSome(ip: seq<Byte>) returns (toWrite: nat)
      requires Valid() && ip != [] && totalWritten + |ip| <= outputLimit
      modifies this`currIndex, this`currWritten, this`totalWritten, iov
      ensures Valid() && toWrite <= |ip| && Output() == old(Output()) + ip[..toWrite]
      ensures old(currIndex) <= currIndex < |iov| && (toWrite == 0 ==> currIndex > old(currIndex))
    {
      NextExists();
      if currWritten >= iov[currIndex].Length {
        if currIndex + 1 >= |iov| { assert false; }
        NextBuffer();
      }
      var room := iov[currIndex].Length - currWritten;
      toWrite := if |ip| < room then |ip| else room;
      Put(ip[..toWrite], toWrite);
    }

    method TryFastAppend(ip: seq<Byte>, n: nat) returns (ok: bool)
      requires Valid()
      modifies this`currWritten, this`totalWritten, iov
      ensures Valid()
      ensures ok ==> n <= 16 && FAST_AVAILABLE <= |ip| && Output() == old(Output()) + ip[..n]
      ensures !ok ==> Output() == old(Output())
    {
      var spaceLeft := outputLimit - totalWritten;
      if n <= 16 && |ip| >= FAST_AVAILABLE && spaceLeft >= 16 {
        NextExists();
        if iov[currIndex].Length - currWritten >= 16 {
          Put(ip[..16], n);
          assert ip[..16][..n] == ip[..n];
          return true;
        }
      }
      return false;
    }

    /** The buffer, and the place in it, of the byte `offset` before the end of the output. */
    method Locate(offset0: nat) returns (fromIndex: nat, fromOffset: nat)
      requires Valid() && 1 <= offset0 <= totalWritten
      ensures fromIndex <= currIndex < |iov| && fromOffset < iov[fromIndex].Length
      ensures fromIndex == currIndex ==> fromOffset < currWritten
      ensures Start(iov, fromIndex) + fromOffset == totalWritten - offset0
    {
      var offset := offset0;
      fromIndex, fromOffset := currIndex, currWritten;
      while offset > 0
        invariant fromIndex <= currIndex && 1 <= offset && fromOffset <= iov[fromIndex].Length
        invariant fromIndex == currIndex ==> fromOffset == currWritten
        invariant Start(iov, fromIndex) + fromOffset - offset == totalWritten - offset0
        decreases fromIndex
      {
        if fromOffset >= offset {
          fromOffset := fromOffset - offset;
          break;
        }
        offset := offset - fromOffset;
        if fromIndex == 0 { assert false; }
        fromIndex := fromIndex - 1;
        fromOffset := iov[fromIndex].Length;
      }
    }

    /** A copy whose source lies in an earlier buffer, up to the end of that buffer. */
    method CopyAcross(fromIndex: nat, fromOffset: nat, n: nat, ghost offset: nat)
      requires Valid() && fromIndex < currIndex < |iov| && fromOffset + n <= iov[fromIndex].Length
      requires totalWritten + n <= outputLimit
      requires 1 <= offset <= totalWritten && Start(iov, fromIndex) + fromOffset == totalWritten - offset
      modifies this`currIndex, this`currWritten, this`totalWritten, iov
      ensures Valid() && currIndex >= old(currIndex) && totalWritten == old(totalWritten) + n
      ensures Output() == CopyFrom(old(Output()), offset, n)
    {
      var data := iov[fromIndex][fromOffset..fromOffset + n];
      StretchOfBuffer(fromIndex, fromOffset, n, offset);
      // the result of Append is ignored by the source: with room up to the limit it cannot fail
      var ok := Append(data);
    }

    lemma StretchOfBuffer(j: nat, a: nat, n: nat, offset: nat)
      requires Valid() && j < currIndex < |iov| && a + n <= iov[j].Length
      requires 1 <= offset <= totalWritten && Start(iov, j) + a == totalWritten - offset
      ensures CopyFrom(Output(), offset, n) == Output() + iov[j][a..a + n]
    {
      hide Flat, CopyFrom;
      var out, f := Output(), Start(iov, j) + a;
      FlatAt(iov, currIndex, j, a, a + n);
      assert out[f..f + n] == Flat(iov, currIndex)[f..f + n] == iov[j][a..a + n];
      if n > 0 { CopyFromStretch(out, offset, n); }
    }

    /** A copy inside the current buffer, as far as the buffer reaches. */
    method CopyInside(fromOffset: nat, n: nat)
      requires Valid() && currIndex < |iov| && fromOffset < currWritten && 1 <= n
      requires currWritten + n <= iov[currIndex].Length && totalWritten + n <= outputLimit
      modifies this`currWritten, this`totalWritten, iov[currIndex]
      ensures Valid()
      ensures Output() == CopyFrom(old(Output()), old(currWritten) - fromOffset, n)
      ensures currWritten == old(currWritten) + n && totalWritten == old(totalWritten) + n
    {
      hide CopyFrom;
      var buffer := iov[currIndex];
      CopyFromPrefix(Flat(iov, currIndex), buffer[..currWritten], currWritten - fromOffset, n);
      IncrementalCopy(buffer, fromOffset, currWritten, n);
      assert Flat(iov, currIndex) == old(Flat(iov, currIndex));
      currWritten := currWritten + n;
      totalWritten := totalWritten + n;
    }

    method AppendFromSelf(offset: nat, n: nat) returns (ok: bool)
      requires Valid()
      modifies this`currIndex, this`currWritten, this`totalWritten, iov
      ensures Valid() && (ok <==> 1 <= offset <= |old(Output())| && |old(Output())| + n <= outputLimit)
      ensures ok ==> Output() == CopyFrom(old(Output()), offset, n)
    {
      if offset > totalWritten || offset == 0 { return false; }
      var spaceLeft := outputLimit - totalWritten;
      if n > spaceLeft { return false; }
      var fromIndex, fromOffset := Locate(offset);
      CopyAll(fromIndex, fromOffset, n, offset);
      return true;
    }

    /** The copy loop, from where the source was located. */
    method CopyAll(fromIndex0: nat, fromOffset0: nat, n: nat, ghost offset: nat)
      requires Valid() && totalWritten + n <= outputLimit && Placed(fromIndex0, fromOffset0, offset)
      modifies this`currIndex, this`currWritten, this`totalWritten, iov
      ensures Valid() && Output() == CopyFrom(old(Output()), offset, n)
    {
      hide CopyFrom, Flat, Output;
      var fromIndex: nat, fromOffset: nat, len: nat := fromIndex0, fromOffset0, n;
      ghost var goal := CopyFrom(Output(), offset, n);
      while len > 0
        invariant Valid() && 1 <= offset <= totalWritten && totalWritten + len <= outputLimit
        invariant len > 0 ==> Placed(fromIndex, fromOffset, offset)
        invariant CopyFrom(Output(), offset, len) == goal
        decreases len, 2 * |iov| - currIndex - fromIndex
      {
        ghost var out := Output();
        var copied;
        copied, fromIndex, fromOffset := CopySome(fromIndex, fromOffset, len, offset);
        CopyFromRest(out, offset, copied, len);
        len := len - copied;
      }
      CopyFromNone(Output(), offset);
    }

    /** (fromIndex, fromOffset) is the place of the byte `offset` before the end of the
        output; at the end of a buffer it may also be just past that buffer's last byte. */
    ghost predicate Placed(fromIndex: nat, fromOffset: nat, offset: nat)
      requires Valid()
      reads this
    {
      && fromIndex <= currIndex < |iov| && fromOffset <= iov[fromIndex].Length
      && 1 <= offset <= totalWritten
      && Start(iov, fromIndex) + fromOffset == totalWritten - offset
    }

    lemma PlacedHere(fromIndex: nat, fromOffset: nat, offset: nat)
      requires Valid() && Placed(fromIndex, fromOffset, offset)
      ensures fromIndex == currIndex ==> fromOffset < currWritten && currWritten - fromOffset == offset
      ensures offset <= totalWritten == |Output()|
    {
    }

    /** One round of the copy loop: across buffers, inside one, or on to the next buffer. */
    method CopySome(fromIndex0: nat, fromOffset0: nat, len: nat, ghost offset: nat)
      returns (copied: nat, fromIndex: nat, fromOffset: nat)
      requires Valid() && 1 <= len && totalWritten + len <= outputLimit && Placed(fromIndex0, fromOffset0, offset)
      modifies this`currIndex, this`currWritten, this`totalWritten, iov
      ensures Valid() && copied <= len && Output() == CopyFrom(old(Output()), offset, copied)
      ensures copied < len ==> Placed(fromIndex, fromOffset, offset)
      ensures copied == 0 ==> currIndex + fromIndex > old(currIndex) + fromIndex0
    {
      hide CopyFrom, Flat, Valid, Output;
      PlacedHere(fromIndex0, fromOffset0, offset);
      if fromIndex0 != currIndex {
        copied, fromIndex, fromOffset := CopyEarlier(fromIndex0, fromOffset0, len, offset);
      } else {
        copied := CopyHere(fromOffset0, len);
        fromIndex, fromOffset := fromIndex0, fromOffset0 + copied;
      }
    }

    /** The source is in an earlier buffer; it moves on to the next when that one is used up. */
    method CopyEarlier(fromIndex0: nat, fromOffset0: nat, len: nat, ghost offset: nat)
      returns (copied: nat, fromIndex: nat, fromOffset: nat)
      requires Valid() && 1 <= len && totalWritten + len <= outputLimit
      requires Placed(fromIndex0, fromOffset0, offset) && fromIndex0 < currIndex
      modifies this`currIndex, this`currWritten, this`totalWritten, iov
      ensures Valid() && copied <= len && Output() == CopyFrom(old(Output()), offset, copied)
      ensures copied < len ==> Placed(fromIndex, fromOffset, offset) && fromIndex == fromIndex0 + 1
      ensures currIndex >= old(currIndex)
    {
      var rest := iov[fromIndex0].Length - fromOffset0;
      copied := if rest < len then rest else len;
      CopyAcross(fromIndex0, fromOffset0, copied, offset);
      fromIndex, fromOffset := fromIndex0, fromOffset0;
      if copied < len {
        fromIndex, fromOffset := fromIndex0 + 1, 0;
      }
    }

    /** Source and target in the same buffer: as much as fits, or on to the next buffer. */
    method CopyHere(fromOffset: nat, len: nat) returns (copied: nat)
      requires Valid() && currIndex < |iov| && fromOffset < currWritten
      requires 1 <= len && totalWritten + len <= outputLimit
      modifies this`currIndex, this`currWritten, this`totalWritten, iov
      ensures Valid() && copied <= len && totalWritten == old(totalWritten) + copied
      ensures copied > 0 ==> Output() == CopyFrom(old(Output()), old(currWritten) - fromOffset, copied)
      ensures copied > 0 ==> currIndex == old(currIndex) && fromOffset + copied <= iov[currIndex].Length
      ensures copied == 0 ==> Output() == old(Output()) && currIndex == old(currIndex) + 1
    {
      var room := iov[currIndex].Length - currWritten;
      copied := if room < len then room else len;
      if copied == 0 {
        NextExists();
        if currIndex + 1 >= |iov| { assert false; }
        NextBuffer();
      } else {
        CopyInside(fromOffset, copied);
      }
    }
  }
}
