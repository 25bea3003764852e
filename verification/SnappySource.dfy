/** A source of bytes that hands them out fragment by fragment. */
module SnappySource {
  import opened Bytes

  function Concat(frags: seq<seq<Byte>>): seq<Byte> {
    if frags == [] then [] else frags[0] + Concat(frags[1..])
  }

  /** The fragments that are left when n bytes have been skipped. */
  function Dropped(frags: seq<seq<Byte>>, n: nat): (left: seq<seq<Byte>>)
    requires n <= |Concat(frags)|
    ensures Concat(left) == Concat(frags)[n..]
    decreases |frags|
  {
    if n == 0 then frags
    else if n < |frags[0]| then
      assert [frags[0][n..]] + frags[1..] != [] && ([frags[0][n..]] + frags[1..])[1..] == frags[1..];
      [frags[0][n..]] + frags[1..]
    else
      assert Concat(frags) == frags[0] + Concat(frags[1..]);
      Dropped(frags[1..], n - |frags[0]|)
  }

  /** Every fragment has a length that fits into 32 bits. */
  predicate Narrow(frags: seq<seq<Byte>>) {
    forall i :: 0 <= i < |frags| ==> |frags[i]| < WORD32
  }

  lemma DroppedNone(frags: seq<seq<Byte>>)
    ensures Dropped(frags, 0) == frags
  {
  }

  /** Skipping in two goes. */
  lemma {:induction false} DroppedMore(frags: seq<seq<Byte>>, n: nat, m: nat)
    requires n + m <= |Concat(frags)|
    ensures Dropped(Dropped(frags, n), m) == Dropped(frags, n + m)
    decreases |frags|
  {
    if n > 0 && m > 0 {
      if n < |frags[0]| {
        var left := [frags[0][n..]] + frags[1..];
        assert left[1..] == frags[1..] && left[0] == frags[0][n..];
        if n + m < |frags[0]| { assert frags[0][n..][m..] == frags[0][n + m..]; }
      } else {
        DroppedMore(frags[1..], n - |frags[0]|, m);
      }
    }
  }

  /** Skipping no more than the low 32 bits of the first length leaves a wide fragment wide. */
  lemma DroppedNarrow(frags: seq<seq<Byte>>, n: nat)
    requires n <= |Concat(frags)| && n <= if frags == [] then 0 else |frags[0]| % WORD32
    ensures Narrow(Dropped(frags, n)) <==> Narrow(frags)
  {
    if n > 0 {
      var rest := frags[1..];
      assert forall i :: 0 < i < |frags| ==> frags[i] == rest[i - 1];
      if n == |frags[0]| {
        assert Dropped(frags, n) == rest;
      } else {
        var left := [frags[0][n..]] + rest;
        assert Dropped(frags, n) == left && |left[0]| == |frags[0]| - n;
        assert forall i :: 0 < i < |left| ==> left[i] == rest[i - 1];
      }
    }
  }

  /** What is left of a single fragment. */
  lemma DroppedOne(s: seq<Byte>, n: nat)
    requires n <= |s|
    ensures Concat([s]) == s && (Narrow(Dropped([s], n)) <==> |s| - n < WORD32)
  {
    assert [s] == [s] + [] && Concat([s]) == s + Concat([]);
    if n == 0 {
      assert Dropped([s], n)[0] == s;
    } else if n < |s| {
      assert Dropped([s], n)[0] == s[n..];
    } else {
      assert [s][1..] == [];
    }
  }

  class Source {
    // unread fragments; Peek shows the first of them
    var frags: seq<seq<Byte>>

    ghost predicate Valid()
      reads this
    {
      forall i :: 0 <= i < |frags| ==> |frags[i]| > 0
    }

    /** All bytes not yet read. */
    function Rest(): seq<Byte>
      reads this
    {
      Concat(frags)
    }

    /** All fragments are narrow. */
    ghost predicate Small()
      reads this
    {
      Narrow(frags)
    }

    constructor (fragments: seq<seq<Byte>>)
      requires forall i :: 0 <= i < |fragments| ==> |fragments[i]| > 0
      ensures Valid() && frags == fragments
    {
      frags := fragments;
    }

    method Available() returns (n: nat)
      ensures n == |Rest()|
    {
      n := |Concat(frags)|;
    }

    /** The next flat region, empty exactly at the end. */
    method Peek() returns (region: seq<Byte>)
      requires Valid()
      ensures region == if frags == [] then [] else frags[0]
      ensures region <= Rest() && (region == [] <==> Rest() == [])
    {
      region := if frags == [] then [] else frags[0];
    }

    /** Moves past n bytes, across as many fragments as they cover. */
    method Skip(n: nat)
      requires Valid() && n <= |Rest()|
      modifies this
      ensures Valid() && frags == Dropped(old(frags), n) && Rest() == old(Rest())[n..]
    {
      var k := n;
      while k > 0
        invariant Valid() && 0 <= k <= n && k <= |Rest()|
        invariant Dropped(frags, k) == Dropped(old(frags), n)
        decreases k
      {
        assert Rest() == frags[0] + Concat(frags[1..]);
        if k < |frags[0]| {
          frags := [frags[0][k..]] + frags[1..];
          k := 0;
        } else {
          k := k - |frags[0]|;
          frags := frags[1..];
        }
      }
    }
  }
}
