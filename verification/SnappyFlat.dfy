/** The writer into one flat array. */
module SnappyFlat {
  import opened Bytes
  import opened SnappyFormat
  import opened SnappyCopy

  /** A fast append needs this many readable bytes: sixteen, and room for one more tag. */
  const FAST_AVAILABLE := 21
  const SIZE_MAX := 0x1_0000_0000_0000_0000

  /** offset - 1u: zero wraps to the largest size. */
  function MinusOne(offset: nat): nat { if offset == 0 then SIZE_MAX - 1 else offset - 1 }

  lemma SameTail(s: seq<Byte>, t: seq<Byte>, i: nat, j: nat)
    requires |s| == |t| && i <= j <= |s| && s[i..] == t[i..]
    ensures s[j..] == t[j..]
  {
  }

  class SnappyArrayWriter {
    const base: array<Byte>
    var op: nat
    var opLimit: nat

    ghost predicate Valid()
      reads this
    {
      op <= opLimit <= base.Length && opLimit < WORD32
    }

    /** Everything written so far. */
    ghost function Output(): seq<Byte>
      requires Valid()
      reads this, base
    {
      base[..op]
    }

    constructor (dst: array<Byte>)
      ensures base == dst && op == 0 && opLimit == 0 && Valid()
    {
      base, op, opLimit := dst, 0, 0;
    }

    method SetExpectedLength(len: nat)
      requires op + len <= base.Length && op + len < WORD32
      modifies this
      ensures Valid() && op == old(op) && opLimit == op + len
    {
      opLimit := op + len;
    }

    method CheckLength() returns (done: bool)
      requires Valid()
      ensures done <==> |Output()| == opLimit
    {
      done := op == opLimit;
    }

    method Append(data: seq<Byte>) returns (ok: bool)
      requires Valid()
      modifies this`op, base
      ensures Valid() && (ok <==> |old(Output())| + |data| <= opLimit)
      ensures ok ==> Output() == old(Output()) + data
      ensures base[opLimit..] == old(base[opLimit..])
    {
      var spaceLeft := opLimit - op;
      if spaceLeft < |data| { return false; }
      forall i | 0 <= i < |data| {
        base[op + i] := data[i];
      }
      op := op + |data|;
      return true;
    }

    /** `ip` are the bytes that may be read; the first n of them are wanted. */
    method TryFastAppend(ip: seq<Byte>, n: nat) returns (ok: bool)
      requires Valid()
      modifies this`op, base
      ensures Valid()
      ensures ok ==> n <= 16 && FAST_AVAILABLE <= |ip| && Output() == old(Output()) + ip[..n]
      ensures !ok ==> Output() == old(Output())
      ensures base[opLimit..] == old(base[opLimit..])
    {
      var spaceLeft := opLimit - op;
      if n <= 16 && |ip| >= FAST_AVAILABLE && spaceLeft >= 16 {
        forall i | 0 <= i < 16 {
          base[op + i] := ip[i];
        }
        op := op + n;
        return true;
      }
      return false;
    }

    method AppendFromSelf(offset: nat, n: nat) returns (ok: bool)
      requires Valid() && 1 <= n && offset < WORD32
      modifies this`op, base
      ensures Valid() && (ok <==> 1 <= offset <= |old(Output())| && |old(Output())| + n <= opLimit)
      ensures ok ==> Output() == CopyFrom(old(Output()), offset, n)
      ensures base[opLimit..] == old(base[opLimit..])
    {
      var spaceLeft := opLimit - op;
      var produced := op;
      if produced <= MinusOne(offset) { return false; }
      ok := CopyWithin(offset, n, spaceLeft);
      if ok { op := op + n; }
    }

    /** The three ways to copy: short, with room to overrun, exact. */
    method CopyWithin(offset: nat, n: nat, spaceLeft: nat) returns (ok: bool)
      requires Valid() && 1 <= n && 1 <= offset <= op && spaceLeft == opLimit - op
      modifies base
      ensures ok <==> n <= spaceLeft
      ensures ok ==> base[..op + n] == CopyFrom(old(base[..op]), offset, n)
      ensures base[opLimit..] == old(base[opLimit..])
    {
      hide CopyFrom;
      ghost var before, end := base[..], opLimit;
      if n <= 16 && offset >= 8 && spaceLeft >= 16 {
        CopyShort(base, op - offset, op, n);
        end := op + 16;
      } else if spaceLeft >= n + COPY_OVERFLOW {
        IncrementalCopyFastPath(base, op - offset, op, n);
        end := op + n + COPY_OVERFLOW;
      } else {
        if spaceLeft < n { return false; }
        IncrementalCopy(base, op - offset, op, n);
        end := op + n;
      }
      SameTail(before, base[..], end, opLimit);
      return true;
    }
  }
}
