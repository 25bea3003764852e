/** The validator, and the three writers behind one interface: the decompressor is
    written once and used with each of them. */
module SnappyWriters {
  import opened Bytes
  import opened SnappyFormat
  import opened SnappyFlat
  import opened SnappyScatter

  /** Counts bytes and drops them. The ghost field is the output it would have produced. */
  class SnappyDecompressionValidator {
    var expected: nat
    var produced: nat
    ghost var shadow: seq<Byte>

    ghost predicate Valid()
      reads this
    {
      produced == |shadow| && produced <= expected < WORD32
    }

    constructor ()
      ensures Valid() && shadow == []
    {
      expected, produced, shadow := 0, 0, [];
    }

    method SetExpectedLength(len: nat)
      requires Valid() && shadow == [] && len < WORD32
      modifies this`expected
      ensures Valid() && expected == len
    {
      expected := len;
    }

    method CheckLength() returns (done: bool)
      requires Valid()
      ensures done <==> |shadow| == expected
    {
      done := expected == produced;
    }

    method Append(data: seq<Byte>) returns (ok: bool)
      requires Valid()
      modifies this`produced, this`shadow
      ensures ok <==> |old(shadow)| + |data| <= expected
      ensures ok ==> Valid() && shadow == old(shadow) + data
    {
      produced := produced + |data|;
      shadow := shadow + data;
      return produced <= expected;
    }

    method AppendFromSelf(offset: nat, n: nat) returns (ok: bool)
      requires Valid() && offset < WORD32
      modifies this`produced, this`shadow
      ensures ok <==> 1 <= offset <= |old(shadow)| && |old(shadow)| + n <= expected
      ensures ok ==> Valid() && shadow == CopyFrom(old(shadow), offset, n)
    {
      if produced <= MinusOne(offset) { return false; }
      produced := produced + n;
      shadow := CopyFrom(shadow, offset, n);
      return produced <= expected;
    }
  }

  datatype Writer =
    | Array(a: SnappyArrayWriter)
    | Vector(v: SnappyIOVecWriter)
    | Validator(c: SnappyDecompressionValidator)
  {
    /** Every object the writer may change. */
    ghost function Footprint(): set<object> {
      match this
      case Array(a) => {a, a.base}
      case Vector(v) => {v} + (set b: object | b in v.iov)
      case Validator(c) => {c}
    }

    ghost predicate Valid()
      reads Footprint()
    {
      match this
      case Array(a) => a.Valid()
      case Vector(v) => v.Valid()
      case Validator(c) => c.Valid()
    }

    ghost function Output(): (s: seq<Byte>)
      requires Valid()
      reads Footprint()
      ensures |s| <= Limit()
    {
      match this
      case Array(a) => a.Output()
      case Vector(v) => v.Output()
      case Validator(c) => c.shadow
    }

    /** The expected length. */
    ghost function Limit(): nat
      reads Footprint()
    {
      match this
      case Array(a) => a.opLimit
      case Vector(v) => v.outputLimit
      case Validator(c) => c.expected
    }

    /** Nothing written yet, and room for len bytes. */
    ghost predicate Ready(len: nat)
      reads Footprint()
    {
      Valid() && len < WORD32 &&
      match this
      case Array(a) => a.op == 0 && len <= a.base.Length
      case Vector(v) => v.totalWritten == 0 && len <= Start(v.iov, |v.iov|)
      case Validator(c) => c.shadow == []
    }

    method SetExpectedLength(len: nat)
      requires Ready(len)
      modifies Footprint()
      ensures Valid() && Output() == [] && Limit() == len
    {
      match this
      case Array(a) => a.SetExpectedLength(len);
      case Vector(v) => v.SetExpectedLength(len);
      case Validator(c) => c.SetExpectedLength(len);
    }

    method CheckLength() returns (done: bool)
      requires Valid()
      ensures done <==> |Output()| == Limit()
    {
      match this
      case Array(a) => done := a.CheckLength();
      case Vector(v) => done := v.CheckLength();
      case Validator(c) => done := c.CheckLength();
    }

    method Append(data: seq<Byte>) returns (ok: bool)
      requires Valid()
      modifies Footprint()
      ensures ok <==> |old(Output())| + |data| <= old(Limit())
      ensures ok ==> Valid() && Limit() == old(Limit()) && Output() == old(Output()) + data
    {
      match this
      case Array(a) => ok := a.Append(data);
      case Vector(v) => ok := v.Append(data);
      case Validator(c) => ok := c.Append(data);
    }

    /** May decline for any reason; the validator always does. */
    method TryFastAppend(ip: seq<Byte>, n: nat) returns (ok: bool)
      requires Valid()
      modifies Footprint()
      ensures Valid() && Limit() == old(Limit())
      ensures ok ==> n <= 16 && FAST_AVAILABLE <= |ip| && Output() == old(Output()) + ip[..n]
      ensures !ok ==> Output() == old(Output())
    {
      match this
      case Array(a) => ok := a.TryFastAppend(ip, n);
      case Vector(v) => ok := v.TryFastAppend(ip, n);
      case Validator(c) => ok := false;
    }

    method AppendFromSelf(offset: nat, n: nat) returns (ok: bool)
      requires Valid() && 1 <= n && offset < WORD32
      modifies Footprint()
      ensures ok <==> 1 <= offset <= |old(Output())| && |old(Output())| + n <= old(Limit())
      ensures ok ==> Valid() && Limit() == old(Limit()) && Output() == CopyFrom(old(Output()), offset, n)
    {
      match this
      case Array(a) => ok := a.AppendFromSelf(offset, n);
      case Vector(v) => ok := v.AppendFromSelf(offset, n);
      case Validator(c) => ok := c.AppendFromSelf(offset, n);
    }
  }
}
