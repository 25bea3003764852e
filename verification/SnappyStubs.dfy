/** Varint headers, bit scans and the match-length search of the codec. */
module SnappyStubs {
  import opened Bytes

  // ---------------------------------------------------------------- varints

  /** Position of the first byte below 128, or |s|. */
  function Terminator(s: seq<Byte>): (k: nat)
    ensures k <= |s|
    ensures k < |s| ==> s[k] < 128
    ensures forall i :: 0 <= i < k ==> s[i] >= 128
  {
    if s == [] || s[0] < 128 then 0 else 1 + Terminator(s[1..])
  }

  /** Seven bits a byte, least significant first. */
  function VarintSum(s: seq<Byte>): nat {
    if s == [] then 0 else Low7(s[0]) + 128 * VarintSum(s[1..])
  }

  function Low7(b: Byte): nat { b % 128 }

  datatype Header = Header(length: nat, size: nat)

  /** The strict reading of a header: at most five bytes, and a value below 2^32. */
  function StrictHeader(s: seq<Byte>): Option<Header> {
    var k := Terminator(s);
    if k < |s| && k <= 4 && (k == 4 ==> s[4] < 16) then Some(Header(VarintSum(s[..k + 1]), k + 1))
    else None
  }

  /** The lenient reading: at most five bytes, bits above the 32nd dropped. */
  function LenientHeader(s: seq<Byte>): (h: Option<Header>)
    ensures h.Some? ==> h.value.length < WORD32 && 1 <= h.value.size <= |s|
  {
    var k := Terminator(s);
    if k < |s| && k <= 4 then Some(Header(VarintSum(s[..k + 1]) % WORD32, k + 1)) else None
  }

  /** The two readings part exactly on five-byte headers whose last byte is 16 to 127. */
  lemma HeadersAgree(s: seq<Byte>)
    ensures StrictHeader(s).Some? ==> LenientHeader(s) == StrictHeader(s)
    ensures StrictHeader(s) != LenientHeader(s) <==> Terminator(s) == 4 && |s| > 4 && 16 <= s[4]
  {
    var k := Terminator(s);
    if k < |s| && k <= 4 {
      var v := VarintSum(s[..k + 1]);
      assert LenientHeader(s) == Some(Header(v % WORD32, k + 1));
      if k == 4 && s[4] >= 16 {
        assert StrictHeader(s) == None;
      } else {
        VarintSumFits(s[..k + 1]);
        assert StrictHeader(s) == Some(Header(v, k + 1));
        ModUnique(v, WORD32, 0, v);
      }
    }
  }

  lemma VarintSumFits(s: seq<Byte>)
    requires |s| <= 5 && (|s| == 5 ==> s[4] < 16)
    ensures VarintSum(s) < WORD32
  {
    if |s| == 5 {
      VarintSumFive(s);
      VarintSumBound(s[..4]);
    } else {
      VarintSumBound(s);
    }
  }

  lemma {:induction false} VarintSumBound(s: seq<Byte>)
    requires |s| <= 5
    ensures VarintSum(s) < Pow128(|s|)
  {
    if s != [] { VarintSumBound(s[1..]); }
  }

  function Pow128(n: nat): nat
    requires n <= 5
  {
    match n
    case 0 => 1
    case 1 => 0x80
    case 2 => 0x4000
    case 3 => 0x20_0000
    case 4 => 0x1000_0000
    case _ => 0x8_0000_0000
  }

  lemma VarintSumFive(s: seq<Byte>)
    requires |s| == 5
    ensures VarintSum(s) == VarintSum(s[..4]) + 0x1000_0000 * Low7(s[4])
  {
    VarintSumLast(s[..1]); VarintSumLast(s[..2]); VarintSumLast(s[..3]); VarintSumLast(s[..4]);
    VarintSumLast(s);
  }

  lemma {:induction false} VarintSumLast(s: seq<Byte>)
    requires 1 <= |s| <= 5
    ensures VarintSum(s) == VarintSum(s[..|s| - 1]) + Pow128(|s| - 1) * Low7(s[|s| - 1])
  {
    if |s| > 1 {
      VarintSumLast(s[1..]);
      assert s[1..][..|s| - 2] == s[..|s| - 1][1..];
    }
  }

  function VarintBytes(v: nat): (s: seq<Byte>)
    ensures |s| > 0
  {
    if v < 128 then [v] else [v % 128 + 128] + VarintBytes(v / 128)
  }

  lemma {:induction false} VarintRoundTrip(v: nat, tail: seq<Byte>)
    ensures Terminator(VarintBytes(v) + tail) == |VarintBytes(v)| - 1
    ensures VarintSum(VarintBytes(v)) == v
  {
    hide Terminator;
    if v < 128 {
      assert ([v] + tail)[0] == v;
    } else {
      VarintRoundTrip(v / 128, tail);
      var rest := VarintBytes(v / 128);
      assert VarintBytes(v) == [v % 128 + 128] + rest;
      assert (VarintBytes(v) + tail)[1..] == rest + tail;
      assert VarintBytes(v)[1..] == rest && Low7(v % 128 + 128) == v % 128;
    }
  }

  /** A 32-bit length written as a header is read back by both readings, whatever follows. */
  lemma HeaderRoundTrip(v: nat, tail: seq<Byte>)
    requires v < WORD32
    ensures |VarintBytes(v)| <= 5
    ensures StrictHeader(VarintBytes(v) + tail) == Some(Header(v, |VarintBytes(v)|))
    ensures LenientHeader(VarintBytes(v) + tail) == Some(Header(v, |VarintBytes(v)|))
  {
    var h := VarintBytes(v);
    var s := h + tail;
    VarintRoundTrip(v, tail);
    VarintLength(v);
    assert s[..|h|] == h;
    if |h| == 5 {
      VarintSumFive(h);
      VarintSumBound(h[..4]);
    }
    HeadersAgree(s);
  }

  lemma VarintLength(v: nat)
    requires v < WORD32
    ensures |VarintBytes(v)| <= 5
  {
    var v1, v2, v3 := v / 128, v / 128 / 128, v / 128 / 128 / 128;
    assert |VarintBytes(v3)| <= 2;
    assert |VarintBytes(v2)| <= 3;
    assert |VarintBytes(v1)| <= 4;
  }

  /** Varint::Encode32: writes v at buf[p..] and returns the position after it. */
  method Encode32(buf: array<Byte>, p: nat, v: nat) returns (q: nat)
    requires v < WORD32 && p + |VarintBytes(v)| <= buf.Length
    modifies buf
    ensures q == p + |VarintBytes(v)| <= buf.Length
    ensures buf[..q] == old(buf[..p]) + VarintBytes(v)
    ensures buf[q..] == old(buf[q..])
  {
    q := p;
    VarintBuilt(buf[..p], v);
    if v < 0x80 {
      q := Put(buf, q, v);
    } else if v < 0x4000 {
      q := Put(buf, q, v % 128 + 128);
      q := Put(buf, q, v / 0x80);
    } else if v < 0x20_0000 {
      q := Put(buf, q, v % 128 + 128);
      q := Put(buf, q, v / 0x80 % 128 + 128);
      q := Put(buf, q, v / 0x4000);
    } else if v < 0x1000_0000 {
      q := Put(buf, q, v % 128 + 128);
      q := Put(buf, q, v / 0x80 % 128 + 128);
      q := Put(buf, q, v / 0x4000 % 128 + 128);
      q := Put(buf, q, v / 0x20_0000);
    } else {
      q := Put(buf, q, v % 128 + 128);
      q := Put(buf, q, v / 0x80 % 128 + 128);
      q := Put(buf, q, v / 0x4000 % 128 + 128);
      q := Put(buf, q, v / 0x20_0000 % 128 + 128);
      q := Put(buf, q, v / 0x1000_0000);
    }
  }

  /** *(ptr++) = b */
  method Put(buf: array<Byte>, p: nat, b: Byte) returns (q: nat)
    requires p < buf.Length
    modifies buf
    ensures q == p + 1 && buf[..q] == old(buf[..p]) + [b]
    ensures forall i :: q <= i < buf.Length ==> buf[i] == old(buf[i])
  {
    buf[p] := b;
    q := p + 1;
  }

  /** The bytes of a varint, put one after the other. */
  lemma VarintBuilt(front: seq<Byte>, v: nat)
    requires v < WORD32
    ensures v < 0x80 ==> front + [v] == front + VarintBytes(v)
    ensures 0x80 <= v < 0x4000 ==> front + [v % 128 + 128] + [v / 0x80] == front + VarintBytes(v)
    ensures 0x4000 <= v < 0x20_0000 ==>
              front + [v % 128 + 128] + [v / 0x80 % 128 + 128] + [v / 0x4000] == front + VarintBytes(v)
    ensures 0x20_0000 <= v < 0x1000_0000 ==>
              front + [v % 128 + 128] + [v / 0x80 % 128 + 128] + [v / 0x4000 % 128 + 128] + [v / 0x20_0000] == front + VarintBytes(v)
    ensures 0x1000_0000 <= v ==>
              front + [v % 128 + 128] + [v / 0x80 % 128 + 128] + [v / 0x4000 % 128 + 128] + [v / 0x20_0000 % 128 + 128]
              + [v / 0x1000_0000] == front + VarintBytes(v)
  {
    hide VarintBytes;
    if v < 0x20_0000 { VarintTop(v); DivChain(v); } else { VarintLong(v); }
  }

  lemma VarintLong(v: nat)
    requires 0x20_0000 <= v < WORD32
    ensures VarintBytes(v) == [v % 128 + 128, v / 0x80 % 128 + 128] +
      if v < 0x1000_0000 then [v / 0x4000 % 128 + 128, v / 0x20_0000]
      else [v / 0x4000 % 128 + 128, v / 0x20_0000 % 128 + 128, v / 0x1000_0000]
  {
    DivChain(v);
    VarintTop(v / 0x4000);
    assert VarintBytes(v / 0x80) == [v / 0x80 % 128 + 128] + VarintBytes(v / 0x4000);
    assert VarintBytes(v) == [v % 128 + 128] + VarintBytes(v / 0x80);
  }

  lemma DivChain(v: nat)
    ensures v / 0x80 / 128 == v / 0x4000
    ensures v / 0x4000 / 128 == v / 0x20_0000
    ensures v / 0x20_0000 / 128 == v / 0x1000_0000
  {
  }

  lemma VarintTop(v: nat)
    requires v < 0x20_0000
    ensures VarintBytes(v) ==
      if v < 0x80 then [v]
      else if v < 0x4000 then [v % 128 + 128, v / 128]
      else [v % 128 + 128, v / 128 % 128 + 128, v / 128 / 128]
  {
  }

  /** One more byte of a header that has not ended yet. */
  lemma HeaderStep(s: seq<Byte>, i: nat)
    requires i < |s| && i <= 4
    requires forall k :: 0 <= k < i ==> s[k] >= 128
    ensures VarintSum(s[..i + 1]) == VarintSum(s[..i]) + Pow128(i) * Low7(s[i])
    ensures s[i] < 128 ==> Terminator(s) == i
    ensures s[i] >= 128 ==> Terminator(s) > i
    ensures i < 4 || s[i] < 16 ==> VarintSum(s[..i + 1]) < WORD32
  {
    assert s[..i + 1][..i] == s[..i];
    VarintSumLast(s[..i + 1]);
    if i < 4 || s[i] < 16 { VarintSumFits(s[..i + 1]); }
  }

  /** Varint::Parse32WithLimit over s: the position after the header and its value. The
      source writes the first four rounds out one by one. */
  method Parse32WithLimit(s: seq<Byte>) returns (next: Option<nat>, output: nat)
    ensures next.Some? <==> StrictHeader(s).Some?
    ensures next.Some? ==> StrictHeader(s) == Some(Header(output, next.value))
  {
    next, output := None, 0;
    var result := 0;
    for i := 0 to 4
      invariant i <= |s|
      invariant forall k :: 0 <= k < i ==> s[k] >= 128
      invariant result == VarintSum(s[..i]) && output == 0 && next == None
    {
      if i >= |s| { return; }
      HeaderStep(s, i);
      result := result + Low7(s[i]) * Pow128(i);
      if s[i] < 128 { return Some(i + 1), result; }
    }
    if 4 >= |s| { return; }
    HeaderStep(s, 4);
    result := (result + Low7(s[4]) * Pow128(4)) % WORD32;
    if s[4] < 16 { return Some(5), result; }
  }
}
