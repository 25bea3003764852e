/** How the pieces of a program change while the compiler links them: each lemma names the
    node a tail-setting walk ends at, and the program after its offset is set. */
module RegexEmit {
  import opened Bytes
  import opened Ascii
  import opened RegexSyntax
  import opened RegexCode

  /** A walk from p ends at t, whose next-offset is still empty; setting it gives d. */
  ghost predicate Links(c: Code, p: nat, t: nat, off: nat, d: Code) {
    && t + 2 < |c| && Chain(c, p, t) && Field(c, t) == 0
    && d == Patch(c, t, off)
  }

  /** An unlinked node. */
  lemma LinkNode(a: Code, op: Byte, b: Code, off: nat)
    ensures Links(a + Node(op, 0) + b, |a|, |a|, off, a + Node(op, off) + b)
    ensures (a + Node(op, 0) + b)[|a|] == op
  {
  }

  /** Code whose exit is not known. */
  lemma LinkAsm(a: Code, r: Re, b: Code, x: nat)
    requires Len(r) <= x && |a| + Len(r) + |b| < 0x8000
    ensures Links(a + Asm(r, 0) + b, |a|, |a| + Tail(r), x - Tail(r), a + Asm(r, x) + b)
    ensures (a + Asm(r, 0) + b)[|a| + Tail(r)] != BACK
  {
    hide Asm, Patch, Chain, Has;
    HasMiddle(a, Asm(r, 0), b);
    ChainAsm(a + Asm(r, 0) + b, |a|, r, 0);
    PatchInside(a, Asm(r, 0), b, Tail(r), x - Tail(r));
    PatchAsm(r, x);
  }

  /** Code that leads to the unlinked node right after it. */
  lemma LinkAfter(a: Code, r: Re, op: Byte, b: Code, off: nat)
    requires |a| + Len(r) + 3 + |b| < 0x8000
    ensures Links(a + Asm(r, Len(r)) + Node(op, 0) + b, |a|, |a| + Len(r), off, a + Asm(r, Len(r)) + Node(op, off) + b)
    ensures (a + Asm(r, Len(r)) + Node(op, 0) + b)[|a| + Len(r)] == op
  {
    hide Asm, Node, Patch;
    var n := Len(r);
    LinkNode(a + Asm(r, n), op, b, off);
    assert a + Asm(r, n) + Node(op, 0) + b == a + Asm(r, n) + (Node(op, 0) + b);
    LeadsOn(a, r, Node(op, 0) + b, 0);
  }

  /** A node that leads n places on, to an unlinked node. */
  lemma LinkSecond(a: Code, op: Byte, n: nat, mid: Code, op': Byte, b: Code, off: nat)
    requires 3 + |mid| == n && |a| + n + 3 + |b| < 0x8000 && op != BACK
    ensures Links(a + Node(op, n) + mid + Node(op', 0) + b, |a|, |a| + n, off, a + Node(op, n) + mid + Node(op', off) + b)
    ensures (a + Node(op, n) + mid + Node(op', 0) + b)[|a| + n] == op'
  {
  }

  /** x+ up to its second branch, which is unlinked. */
  lemma LinkPlus(a: Code, r: Re)
    requires |a| + Len(r) + 12 < 0x8000 && !Simple(r)
    ensures var n := Len(r);
            var c := a + Asm(r, n) + Node(BRANCH, 6) + Node(BACK, n + 3) + Node(BRANCH, 0) + Node(NOTHING, 0);
            Links(c, |a|, |a| + n + 6, 3, a + Asm(Plus(r), 0)) && c[|a| + n + 6] == BRANCH
  {
    hide Asm, Node, Patch, Has, PlusLoop, Field, Chain, Links, Len, Tail, Simple;
    var n := Len(r);
    var front := a + Asm(r, n);
    LinkSecond(front, BRANCH, 6, Node(BACK, n + 3), BRANCH, Node(NOTHING, 0), 3);
    PlusWhole(a, r);
    Assoc4(front, Node(BRANCH, 6), Node(BACK, n + 3), Node(BRANCH, 0), Node(NOTHING, 0));
    LinksOn(a, r, Node(BRANCH, 6) + Node(BACK, n + 3) + Node(BRANCH, 0) + Node(NOTHING, 0), 6, 3, a + Asm(Plus(r), 0));
  }

  lemma Assoc4(a: Code, b: Code, c: Code, d: Code, e: Code)
    ensures a + b + c + d + e == a + (b + c + d + e)
  {
    Assoc(a, b, c);
    Assoc(a, b + c, d);
    Assoc(a, b + c + d, e);
  }

  /** Code that leads to what is after it, from where a walk goes on to t'. */
  lemma LinksOn(a: Code, r: Re, rest: Code, t': nat, off: nat, d: Code)
    requires |a| + Len(r) + |rest| < 0x8000 && Links(a + Asm(r, Len(r)) + rest, |a| + Len(r), |a| + Len(r) + t', off, d)
    ensures Links(a + Asm(r, Len(r)) + rest, |a|, |a| + Len(r) + t', off, d)
  {
    hide Asm, Patch, Chain;
    LeadsOn(a, r, rest, t');
  }

  /** Code that leads to what is after it, from where the chain goes on to t'. */
  lemma LeadsOn(a: Code, r: Re, rest: Code, t': nat)
    requires |a| + Len(r) + |rest| < 0x8000 && Chain(a + Asm(r, Len(r)) + rest, |a| + Len(r), |a| + Len(r) + t')
    ensures Chain(a + Asm(r, Len(r)) + rest, |a|, |a| + Len(r) + t')
  {
    hide Asm, Has, Chain;
    var c, n := a + Asm(r, Len(r)) + rest, Len(r);
    HasMiddle(a, Asm(r, n), rest);
    ChainAsm(c, |a|, r, n);
    HasSize(c, |a|, Asm(r, n));
    ChainOn(c, |a|, Tail(r), n, t');
  }

  lemma PlusWhole(a: Code, r: Re)
    requires !Simple(r)
    ensures a + Asm(r, Len(r)) + Node(BRANCH, 6) + Node(BACK, Len(r) + 3) + Node(BRANCH, 3) + Node(NOTHING, 0) == a + Asm(Plus(r), 0)
  {
    hide Asm, Node;
    PlusUnfold(r, 0);
  }

  /** The four links of x*, for an x that is not simple: where each walk ends and what the
      program is after it. */
  lemma StarSteps(pre: Code, r: Re) returns (c1: Code, c2: Code, c3: Code)
    requires |pre| + Len(r) + 12 < 0x8000 && !Simple(r)
    ensures var n, p := Len(r), |pre|;
            var c0 := pre + Node(BRANCH, 0) + Asm(r, 0) + Node(BACK, 0);
            && |c0| == |c1| == |c2| == |c3| - 3 == p + n + 6
            && c0[p] == BRANCH && c0[p + 3 + Tail(r)] != BACK
            && Links(c0, p + 3, p + 3 + Tail(r), n - Tail(r), c1)
            && c1[p] == BRANCH && c1[p + 3 + n] == BACK
            && Links(c1, p + 3, p + 3 + n, n + 3, c2)
            && (c2 + Node(BRANCH, 0))[p] == BRANCH
            && Links(c2 + Node(BRANCH, 0), p, p, n + 6, c3)
            && (c3 + Node(NOTHING, 0))[p + n + 6] == BRANCH
            && Links(c3 + Node(NOTHING, 0), p, p + n + 6, 3, pre + Asm(Star(r), 0))
  {
    hide Asm, Node, Links;
    var n := Len(r);
    var head := pre + Node(BRANCH, 0);
    LinkAsm(head, r, Node(BACK, 0), n);
    c1 := head + Asm(r, n) + Node(BACK, 0);
    LinkAfter(head, r, BACK, [], n + 3);
    assert c1 + [] == c1;
    c2 := head + Asm(r, n) + Node(BACK, n + 3);
    assert c2 + [] == c2;
    FirstByte(pre, BRANCH, Asm(r, 0) + Node(BACK, 0));
    FirstByte(pre, BRANCH, Asm(r, n) + Node(BACK, 0));
    Assoc(head, Asm(r, 0), Node(BACK, 0));
    Assoc(head, Asm(r, n), Node(BACK, 0));
    c3 := StarEnd(pre, r);
  }

  lemma FirstByte(pre: Code, op: Byte, b: Code)
    ensures (pre + Node(op, 0) + b)[|pre|] == op
  {
  }

  lemma StarEnd(pre: Code, r: Re) returns (c3: Code)
    requires |pre| + Len(r) + 12 < 0x8000 && !Simple(r)
    ensures var n, p := Len(r), |pre|;
            var c2 := pre + Node(BRANCH, 0) + Asm(r, n) + Node(BACK, n + 3);
            && |c3| == p + n + 9
            && (c2 + Node(BRANCH, 0))[p] == BRANCH
            && Links(c2 + Node(BRANCH, 0), p, p, n + 6, c3)
            && (c3 + Node(NOTHING, 0))[p + n + 6] == BRANCH
            && Links(c3 + Node(NOTHING, 0), p, p + n + 6, 3, pre + Asm(Star(r), 0))
  {
    hide Asm, Node, Links;
    var n := Len(r);
    var loop := Asm(r, n) + Node(BACK, n + 3);
    LinkNode(pre, BRANCH, loop + Node(BRANCH, 0), n + 6);
    Assoc(pre + Node(BRANCH, 0), loop, Node(BRANCH, 0));
    Assoc(pre + Node(BRANCH, 0), Asm(r, n), Node(BACK, n + 3));
    c3 := pre + Node(BRANCH, n + 6) + (loop + Node(BRANCH, 0));
    LinkSecond(pre, BRANCH, n + 6, loop, BRANCH, Node(NOTHING, 0), 3);
    Assoc(pre + Node(BRANCH, n + 6), loop, Node(BRANCH, 0));
    StarWhole(pre, r);
  }

  lemma StarWhole(pre: Code, r: Re)
    requires !Simple(r)
    ensures var n := Len(r);
            pre + Node(BRANCH, n + 6) + (Asm(r, n) + Node(BACK, n + 3)) + Node(BRANCH, 3) + Node(NOTHING, 0) == pre + Asm(Star(r), 0)
  {
    hide Asm, Node, StarHead;
    var n := Len(r);
    StarUnfold(r, 0);
    var b, a, k, b', e := Node(BRANCH, n + 6), Asm(r, n), Node(BACK, n + 3), Node(BRANCH, 3), Node(NOTHING, 0);
    Assoc(b, a, k);
    Assoc(pre, b, a + k);
    Assoc(pre, b + a + k, b');
    Assoc(pre, b + a + k + b', e);
  }

  /** The four links of x+, for an x that is not simple. */
  lemma PlusSteps(pre: Code, r: Re) returns (c1: Code, c2: Code, c3: Code)
    requires |pre| + Len(r) + 12 < 0x8000 && !Simple(r)
    ensures var n, p := Len(r), |pre|;
            var c0 := pre + Asm(r, 0) + Node(BRANCH, 0);
            && |c0| == |c1| == |c2| - 3 == |c3| - 6 == p + n + 3
            && c0[p + Tail(r)] != BACK
            && Links(c0, p, p + Tail(r), n - Tail(r), c1)
            && (c1 + Node(BACK, 0))[p + n + 3] == BACK
            && Links(c1 + Node(BACK, 0), p + n + 3, p + n + 3, n + 3, c2)
            && (c2 + Node(BRANCH, 0))[p + n] == BRANCH
            && Links(c2 + Node(BRANCH, 0), p + n, p + n, 6, c3)
            && (c3 + Node(NOTHING, 0))[p + n + 6] == BRANCH
            && Links(c3 + Node(NOTHING, 0), p, p + n + 6, 3, pre + Asm(Plus(r), 0))
  {
    hide Asm, Node, Links;
    var n := Len(r);
    LinkAsm(pre, r, Node(BRANCH, 0), n);
    c1 := pre + Asm(r, n) + Node(BRANCH, 0);
    LinkNode(c1, BACK, [], n + 3);
    c2 := c1 + Node(BACK, n + 3);
    assert c1 + Node(BACK, 0) + [] == c1 + Node(BACK, 0) && c2 + [] == c2;
    LinkNode(pre + Asm(r, n), BRANCH, Node(BACK, n + 3) + Node(BRANCH, 0), 6);
    Assoc(pre + Asm(r, n) + Node(BRANCH, 0), Node(BACK, n + 3), Node(BRANCH, 0));
    c3 := pre + Asm(r, n) + Node(BRANCH, 6) + (Node(BACK, n + 3) + Node(BRANCH, 0));
    LinkPlus(pre, r);
    Assoc(pre + Asm(r, n) + Node(BRANCH, 6), Node(BACK, n + 3), Node(BRANCH, 0));
  }

  /** The three links of x?. */
  lemma OptSteps(pre: Code, r: Re) returns (c1: Code, c2: Code)
    requires |pre| + Len(r) + 9 < 0x8000
    ensures var n, p := Len(r), |pre|;
            var c0 := pre + Node(BRANCH, 0) + Asm(r, 0) + Node(BRANCH, 0);
            && |c0| == |c1| == |c2| - 3 == p + n + 6
            && c0[p] == BRANCH
            && Links(c0, p, p, n + 3, c1)
            && (c1 + Node(NOTHING, 0))[p + n + 3] == BRANCH
            && Links(c1 + Node(NOTHING, 0), p, p + n + 3, 3, c2)
            && c2[p] == BRANCH && c2[p + 3 + Tail(r)] != BACK
            && Links(c2, p + 3, p + 3 + Tail(r), n + 3 - Tail(r), pre + Asm(Opt(r), 0))
  {
    hide Asm, Node, Links;
    var n := Len(r);
    LinkNode(pre, BRANCH, Asm(r, 0) + Node(BRANCH, 0), n + 3);
    Assoc(pre + Node(BRANCH, 0), Asm(r, 0), Node(BRANCH, 0));
    c1 := pre + Node(BRANCH, n + 3) + (Asm(r, 0) + Node(BRANCH, 0));
    LinkSecond(pre, BRANCH, n + 3, Asm(r, 0), BRANCH, Node(NOTHING, 0), 3);
    Assoc(pre + Node(BRANCH, n + 3), Asm(r, 0), Node(BRANCH, 0));
    c2 := OptEnd(pre, r);
  }

  lemma OptEnd(pre: Code, r: Re) returns (c2: Code)
    requires |pre| + Len(r) + 9 < 0x8000
    ensures var n, p := Len(r), |pre|;
            && c2 == pre + Node(BRANCH, n + 3) + Asm(r, 0) + Node(BRANCH, 3) + Node(NOTHING, 0)
            && c2[p] == BRANCH && c2[p + 3 + Tail(r)] != BACK
            && Links(c2, p + 3, p + 3 + Tail(r), n + 3 - Tail(r), pre + Asm(Opt(r), 0))
  {
    hide Asm, Links, Len;
    var n := Len(r);
    var rest := Node(BRANCH, 3) + Node(NOTHING, 0);
    c2 := pre + Node(BRANCH, n + 3) + Asm(r, 0) + rest;
    LinkAsm(pre + Node(BRANCH, n + 3), r, rest, n + 3);
    OptUnfold(r, 0);
    hide Node;
    assert c2 == pre + Node(BRANCH, n + 3) + Asm(r, 0) + Node(BRANCH, 3) + Node(NOTHING, 0);
    assert pre + Node(BRANCH, n + 3) + Asm(r, n + 3) + rest == pre + Asm(Opt(r), 0);
  }

  /** Where the last piece of an alternative is. */
  function LastAt(ps: seq<Re>): nat
    requires ps != []
  {
    if |ps| == 1 then 0 else SeqLen(ps[..|ps| - 1])
  }

  /** An alternative up to its last piece, which is left out. */
  function BeforeLast(ps: seq<Re>): (c: Code)
    requires ps != []
    ensures |c| == LastAt(ps)
  {
    if |ps| == 1 then [] else SeqAsm(ps[..|ps| - 1], SeqLen(ps[..|ps| - 1]))
  }

  lemma LastPiece(ps: seq<Re>)
    requires ps != []
    ensures var p := ps[|ps| - 1];
            SeqAsm(ps, 0) == BeforeLast(ps) + Asm(p, 0) && SeqLen(ps) == LastAt(ps) + Len(p) && SeqTail(ps) == LastAt(ps) + Tail(p)
  {
    hide Asm, Len, Tail;
    if |ps| > 1 {
      LastOfMany(ps, ps[..|ps| - 1], ps[|ps| - 1]);
    } else {
      assert [] + Asm(ps[0], 0) == Asm(ps[0], 0);
    }
  }

  lemma LastOfMany(ps: seq<Re>, init: seq<Re>, p: Re)
    requires |ps| > 1 && init == ps[..|ps| - 1] && p == ps[|ps| - 1]
    ensures SeqAsm(ps, 0) == BeforeLast(ps) + Asm(p, 0) && SeqLen(ps) == LastAt(ps) + Len(p) && SeqTail(ps) == LastAt(ps) + Tail(p)
  {
    hide Asm, SeqAsm, SeqLen, SeqTail, Len, Tail;
    SeqSnoc(init, p);
    assert ps == init + [p];
  }

  /** The pieces of an alternative that is still being read: nothing stands for none yet. */
  function SeqBody(ps: seq<Re>): (c: Code)
    ensures |c| == if ps == [] then 0 else SeqLen(ps)
  {
    if ps == [] then [] else SeqAsm(ps, 0)
  }

  lemma SeqBodyWhole(ps: seq<Re>)
    ensures !SeqWidth([]) && !SeqStarStart([]) && SeqBody([]) == [] && SeqAsm([], 0) == Node(NOTHING, 0)
    ensures ps != [] ==> SeqBody(ps) == SeqAsm(ps, 0)
  {
  }

  lemma SeqBodySnoc(ps: seq<Re>, r: Re)
    ensures |SeqBody(ps + [r])| == |SeqBody(ps)| + Len(r)
    ensures LastAt(ps + [r]) == |SeqBody(ps)|
    ensures ps == [] ==> SeqBody(ps + [r]) == Asm(r, 0)
    ensures SeqWidth(ps + [r]) == (SeqWidth(ps) || Width(r))
    ensures SeqStarStart(ps + [r]) == if ps == [] then StarStart(r) else SeqStarStart(ps)
  {
    assert (ps + [r])[..|ps|] == ps;
    SeqWidthSnoc(ps, r);
    if ps != [] {
      hide SeqAsm, Asm;
      SeqSnoc(ps, r);
    } else {
      assert ps + [r] == [r];
    }
  }

  lemma {:induction false} SeqWidthSnoc(ps: seq<Re>, r: Re)
    ensures SeqWidth(ps + [r]) == (SeqWidth(ps) || Width(r))
  {
    if ps != [] {
      assert (ps + [r])[1..] == ps[1..] + [r];
      SeqWidthSnoc(ps[1..], r);
    } else {
      assert (ps + [r])[1..] == [];
    }
  }

  lemma {:induction false} AltsFlagsSnoc(alts: seq<Branch>, b: Branch)
    ensures AltsWidth(alts + [b]) == (AltsWidth(alts) && SeqWidth(b.ps))
    ensures AltsStarStart(alts + [b]) == (AltsStarStart(alts) || SeqStarStart(b.ps))
    decreases alts
  {
    if alts != [] {
      assert (alts + [b])[1..] == alts[1..] + [b];
      AltsFlagsSnoc(alts[1..], b);
    } else {
      assert (alts + [b])[1..] == [];
    }
  }

  /** The last piece of an alternative, about to be led on to the next piece. */
  lemma LinkPiece(a: Code, ps: seq<Re>, r: Re)
    requires ps != [] && |a| + SeqLen(ps) + Len(r) < 0x8000
    ensures var c := a + SeqAsm(ps, 0) + Asm(r, 0);
            Links(c, |a| + LastAt(ps), |a| + SeqTail(ps), SeqLen(ps) - SeqTail(ps), a + SeqAsm(ps + [r], 0))
            && c[|a| + SeqTail(ps)] != BACK
  {
    hide Asm, SeqAsm, BeforeLast, LastAt, SeqLen, SeqTail, Tail, Len, Patch, Chain;
    var p := ps[|ps| - 1];
    LastPiece(ps);
    SeqSnoc(ps, r);
    PatchSeq(ps, SeqLen(ps));
    PatchInside(a, SeqAsm(ps, 0), Asm(r, 0), SeqTail(ps), SeqLen(ps) - SeqTail(ps));
    Assoc(a, BeforeLast(ps), Asm(p, 0));
    Assoc(a, SeqAsm(ps, SeqLen(ps)), Asm(r, 0));
    LinkAsm(a + BeforeLast(ps), p, Asm(r, 0), Len(p));
  }

  /** What a group or a whole pattern starts with: the opening node, or nothing. */
  function Front(paren: bool, no: nat): (c: Code)
    ensures |c| == if paren then 3 else 0
  {
    if paren then Node(GroupOp(OPEN, no), 3) else []
  }

  /** The code of a group, or of a whole pattern. */
  function Whole(paren: bool, no: nat, alts: seq<Branch>): (c: Code)
    ensures |c| == AltsLen(alts) + if paren then 6 else 3
  {
    Front(paren, no) + AltsCode(alts, |alts|, true) + Node(if paren then GroupOp(CLOSE, no) else END, 0)
  }

  lemma WholeGroup(no: nat, alts: seq<Branch>)
    ensures Asm(Group(no, alts), 0) == Whole(true, no, alts) && Len(Group(no, alts)) == |Whole(true, no, alts)|
  {
    GroupUnfold(no, alts, 0);
  }

  lemma PlainNodes()
    ensures Asm(Bol, 0) == Node(BOL, 0) && Asm(Eol, 0) == Node(EOL, 0) && Asm(Any, 0) == Node(ANY, 0)
  {
  }

  /** The last alternative, about to be led on to what comes after it. */
  lemma LinkAlternative(a: Code, paren: bool, no: nat, alts: seq<Branch>, b: Code)
    requires alts != [] && |a| + |Front(paren, no)| + AltsLen(alts) + |b| < 0x8000
    ensures var f := Front(paren, no);
            var t := |a| + |f| + LastBranch(alts);
            Links(a + f + AltsCode(alts, 0, false) + b, |a|, t, AltsLen(alts) - LastBranch(alts), a + f + AltsCode(alts, 0, true) + b)
            && (a + f + AltsCode(alts, 0, false) + b)[t] == BRANCH
  {
    hide AltsCode, Node, Patch, Has, LastBranch, Front;
    var f := Front(paren, no);
    var c := a + f + AltsCode(alts, 0, false) + b;
    PatchLastBranch(alts);
    PatchInside(a + f, AltsCode(alts, 0, false), b, LastBranch(alts), AltsLen(alts) - LastBranch(alts));
    HasMiddle(a + f, AltsCode(alts, 0, false), b);
    ChainOpenAlts(c, |a + f|, alts);
    if paren {
      assert c == a + f + (AltsCode(alts, 0, false) + b);
      FrontLeads(c, a, no, AltsCode(alts, 0, false) + b);
    }
  }

  lemma FrontLeads(c: Code, a: Code, no: nat, rest: Code)
    requires c == a + Front(true, no) + rest && |c| < 0x8000
    ensures |a| + 2 < |c| && c[|a|] == GroupOp(OPEN, no) && Field(c, |a|) == 3
  {
    HasMiddle(a, Node(GroupOp(OPEN, no), 3), rest);
    NodeAt(c, |a|, GroupOp(OPEN, no), 3);
  }

  /** The k-th alternative, about to be led to the closing node. */
  lemma LinkBranch(a: Code, alts: seq<Branch>, k: nat, b: Code)
    requires k < |alts| && |a| + AltsLen(alts) + |b| < 0x8000
    ensures var c := a + AltsCode(alts, k, true) + b;
            var p := |a| + BranchAt(alts, k);
            && p + 2 < |c| && c[p] == BRANCH && Field(c, p) == 3 + SeqLen(alts[k].ps)
            && Links(c, p + 3, |a| + BranchTail(alts, k), AltsLen(alts) - BranchTail(alts, k), a + AltsCode(alts, k + 1, true) + b)
            && c[|a| + BranchTail(alts, k)] != BACK
  {
    hide AltsCode, SeqAsm, Has, Chain, Patch, Node, BranchAt, Field;
    var c := a + AltsCode(alts, k, true) + b;
    PatchBranch(alts, k);
    PatchInside(a, AltsCode(alts, k, true), b, BranchTail(alts, k), AltsLen(alts) - BranchTail(alts, k));
    HasMiddle(a, AltsCode(alts, k, true), b);
    BranchThere(c, |a|, alts, k, k);
    NodeAt(c, |a| + BranchAt(alts, k), BRANCH, 3 + SeqLen(alts[k].ps));
    ChainSeq(c, |a| + BranchAt(alts, k) + 3, alts[k].ps, 0);
  }

  /** The k-th alternative inside the code of all of them. */
  lemma {:induction false} BranchThere(c: Code, p: nat, alts: seq<Branch>, k: nat, done: nat)
    requires k < |alts| && Has(c, p, AltsCode(alts, done, true)) && done <= k
    ensures p + AltsLen(alts) <= |c|
    ensures Has(c, p + BranchAt(alts, k), Node(BRANCH, 3 + SeqLen(alts[k].ps)))
    ensures Has(c, p + BranchAt(alts, k) + 3, SeqAsm(alts[k].ps, 0))
    decreases alts
  {
    hide AltsCode, SeqAsm, Node, Has;
    AltsParts(c, p, alts, done, true);
    if k > 0 {
      BranchThere(c, p + 3 + SeqLen(alts[0].ps), alts[1..], k - 1, if done > 0 then done - 1 else 0);
    }
  }

  /** Where the node after the k-th alternative is. */
  lemma {:induction false} BranchNext(alts: seq<Branch>, k: nat)
    requires k < |alts|
    ensures BranchAt(alts, k) + 3 + SeqLen(alts[k].ps) == if k + 1 < |alts| then BranchAt(alts, k + 1) else AltsLen(alts)
    decreases alts
  {
    if k > 0 { BranchNext(alts[1..], k - 1); }
  }

  // ------------------------------------------------- what is parsed only grows

  lemma {:induction false} AltsLenSnoc(alts: seq<Branch>, b: Branch)
    ensures AltsLen(alts + [b]) == AltsLen(alts) + 3 + SeqLen(b.ps)
    decreases alts
  {
    hide AltsCode, SeqAsm;
    AltsSnoc(alts, b);
  }

  lemma {:induction false} BranchGrows(p: seq<Ch>, pos: nat, npar: nat, ps: seq<Re>)
    requires ps != []
    ensures var a := ParseBranch(p, pos, npar, ps); a.Accept? ==> SeqLen(ps) <= SeqLen(a.value)
    decreases |p| - pos
  {
    if !AtBranchEnd(p, pos) {
      var piece := ParsePiece(p, pos, npar);
      if piece.Accept? {
        hide SeqAsm;
        SeqSnoc(ps, piece.value);
        BranchGrows(p, piece.pos, piece.npar, ps + [piece.value]);
      }
    }
  }

  lemma PieceFits(p: seq<Ch>, pos: nat, npar: nat, ps: seq<Re>)
    requires !AtBranchEnd(p, pos) && ParseBranch(p, pos, npar, ps).Accept?
    ensures var piece := ParsePiece(p, pos, npar);
            piece.Accept? && |SeqBody(ps)| + Len(piece.value) <= SeqLen(ParseBranch(p, pos, npar, ps).value)
  {
    hide SeqAsm, SeqLen, ParseBranch, ParsePiece;
    BranchUnfold(p, pos, npar, ps);
    var piece := ParsePiece(p, pos, npar);
    SeqBodySnoc(ps, piece.value);
    BranchGrows(p, piece.pos, piece.npar, ps + [piece.value]);
  }

  lemma {:induction false} AltsGrow(p: seq<Ch>, pos: nat, npar: nat, alts: seq<Branch>)
    ensures var a := ParseAlts(p, pos, npar, alts); a.Accept? ==> AltsLen(alts) <= AltsLen(a.value)
    decreases |p| - pos
  {
    var b := ParseBranch(p, pos, npar, []);
    if b.Accept? {
      AltsLenSnoc(alts, Branch(b.value));
      if CharAt(p, b.pos) == BAR { AltsGrow(p, b.pos + 1, b.npar, alts + [Branch(b.value)]); }
    }
  }

  lemma BranchFits(p: seq<Ch>, pos: nat, npar: nat, alts: seq<Branch>)
    requires ParseAlts(p, pos, npar, alts).Accept?
    ensures var b := ParseBranch(p, pos, npar, []);
            b.Accept? && AltsLen(alts) + 3 + SeqLen(b.value) <= AltsLen(ParseAlts(p, pos, npar, alts).value)
  {
    hide AltsLen, SeqLen, ParseBranch, ParseAlts;
    AltsUnfold(p, pos, npar, alts);
    var b := ParseBranch(p, pos, npar, []);
    AltsLenSnoc(alts, Branch(b.value));
    if CharAt(p, b.pos) == BAR { AltsGrow(p, b.pos + 1, b.npar, alts + [Branch(b.value)]); }
  }

  /** A group or a whole pattern begins with an alternative, and its code is no shorter. */
  lemma ExpressionFits(p: seq<Ch>, pos: nat, npar: nat, paren: bool)
    requires paren ==> npar < NSUBEXP
    ensures var n := if paren then npar + 1 else npar;
            var b := ParseBranch(p, pos, n, []);
            && (b.Reject? ==> ParseReg(p, pos, npar, paren).Reject?)
            && (b.Accept? ==>
                  var a := Rest(p, b.pos, b.npar, [Branch(b.value)]);
                  && 3 + SeqLen(b.value) == AltsLen([Branch(b.value)])
                  && AltsWidth([Branch(b.value)]) == SeqWidth(b.value) && AltsStarStart([Branch(b.value)]) == SeqStarStart(b.value)
                  && (a.Accept? ==> AltsLen([Branch(b.value)]) <= AltsLen(a.value))
                  && ParseReg(p, pos, npar, paren) ==
                     if a.Reject? || CharAt(p, a.pos) != (if paren then RPAREN else 0) then Reject
                     else if paren then Accept(a.value, a.pos + 1, a.npar) else a)
  {
    var n := if paren then npar + 1 else npar;
    AltsUnfold(p, pos, n, []);
    var b := ParseBranch(p, pos, n, []);
    if b.Accept? {
      AltsLenSnoc([], Branch(b.value));
      AltsFlagsSnoc([], Branch(b.value));
      assert [] + [Branch(b.value)] == [Branch(b.value)];
      if CharAt(p, b.pos) == BAR { AltsGrow(p, b.pos + 1, b.npar, [Branch(b.value)]); }
    }
  }

  /** Alternatives up to where the next one goes, after pre and the opening node. */
  function Open(pre: Code, paren: bool, no: nat, alts: seq<Branch>): (c: Code)
    ensures |c| == |pre| + (if paren then 3 else 0) + AltsLen(alts)
  {
    pre + Front(paren, no) + AltsCode(alts, 0, false)
  }

  /** The same once the last of them leads on. */
  function Joined(pre: Code, paren: bool, no: nat, alts: seq<Branch>, k: nat): (c: Code)
    ensures |c| == |pre| + (if paren then 3 else 0) + AltsLen(alts)
  {
    pre + Front(paren, no) + AltsCode(alts, k, true)
  }

  lemma OpenFirst(pre: Code, no: nat, b: Branch)
    requires |pre| + 6 + SeqLen(b.ps) < 0x8000
    ensures var c := pre + Node(GroupOp(OPEN, no), 0) + (Node(BRANCH, 0) + SeqAsm(b.ps, 0));
            c[|pre|] != BACK && Links(c, |pre|, |pre|, 3, Open(pre, true, no, [b]))
  {
    hide SeqAsm, Links, Node;
    LinkNode(pre, GroupOp(OPEN, no), Node(BRANCH, 0) + SeqAsm(b.ps, 0), 3);
    OpenAlone(pre + Front(true, no), b);
  }

  lemma OpenAlone(pre: Code, b: Branch)
    ensures pre + AltsCode([b], 0, false) == pre + (Node(BRANCH, 0) + SeqAsm(b.ps, 0))
  {
    AltsSnoc([], b);
    assert [] + [b] == [b];
  }

  lemma OpenOnly(pre: Code, no: nat, b: Branch)
    ensures pre + [] + (Node(BRANCH, 0) + SeqAsm(b.ps, 0)) == Open(pre, false, no, [b])
  {
    hide SeqAsm, Node, AltsCode;
    OpenAlone(pre, b);
    assert pre + [] == pre;
  }

  lemma OpenMore(pre: Code, paren: bool, no: nat, alts: seq<Branch>, b: Branch)
    ensures Joined(pre, paren, no, alts, 0) + (Node(BRANCH, 0) + SeqAsm(b.ps, 0)) == Open(pre, paren, no, alts + [b])
  {
    hide SeqAsm, Node, AltsCode, Front;
    AltsSnoc(alts, b);
    var f := pre + Front(paren, no);
    assert f + AltsCode(alts, 0, true) + (Node(BRANCH, 0) + SeqAsm(b.ps, 0)) == f + AltsCode(alts + [b], 0, false);
  }

  /** Where the k-th alternative starts, or the code after them all. */
  function SlotAt(alts: seq<Branch>, k: nat): (t: nat)
    requires k <= |alts|
    ensures k == 0 ==> t == 0
  {
    if k < |alts| then BranchAt(alts, k) else AltsLen(alts)
  }

  /** The k-th alternative is hooked to the closing node, and leads to the next one. */
  lemma HookStep(pre: Code, paren: bool, no: nat, alts: seq<Branch>, k: nat, end: Byte)
    requires k < |alts| && |pre| + |Front(paren, no)| + AltsLen(alts) + 3 < 0x8000
    ensures var c, d := Joined(pre, paren, no, alts, k) + Node(end, 0), Joined(pre, paren, no, alts, k + 1) + Node(end, 0);
            var base := |pre| + |Front(paren, no)|;
            var p, t := base + BranchAt(alts, k), base + BranchTail(alts, k);
            && c[p] == BRANCH == d[p] && c[t] != BACK
            && Links(c, p + 3, t, AltsLen(alts) - BranchTail(alts, k), d)
            && Field(d, p) == SlotAt(alts, k + 1) - SlotAt(alts, k) > 0
  {
    hide AltsCode, BranchAt, SeqLen, SeqTail;
    LinkBranch(pre + Front(paren, no), alts, k, Node(end, 0));
    BranchNext(alts, k);
  }

  /** The opening node leads to the first alternative. */
  lemma HookFirst(pre: Code, no: nat, alts: seq<Branch>, end: Byte)
    requires |pre| + AltsLen(alts) + 6 < 0x8000
    ensures var c := Joined(pre, true, no, alts, 0) + Node(end, 0);
            c[|pre|] == GroupOp(OPEN, no) && Field(c, |pre|) == 3
  {
    hide AltsCode, Front, Node;
    var c := Joined(pre, true, no, alts, 0) + Node(end, 0);
    assert c == pre + Front(true, no) + (AltsCode(alts, 0, true) + Node(end, 0));
    FrontLeads(c, pre, no, AltsCode(alts, 0, true) + Node(end, 0));
  }

  /** The closing node leads nowhere yet. */
  lemma HookLast(c: Code, end: Byte)
    ensures (c + Node(end, 0))[|c|] == end && Field(c + Node(end, 0), |c|) == 0
  {
  }

  /** Where the walk over the nodes to hook is: at the opening node, at the k-th alternative, or
      at the closing node. */
  predicate Walk(pre: Code, paren: bool, no: nat, alts: seq<Branch>, k: nat, p: int) {
    && k <= |alts|
    && (p < 0 ==> k == |alts|)
    && (p >= 0 ==> p == |pre| + |Front(paren, no)| + SlotAt(alts, k) || (paren && k == 0 && p == |pre|))
  }

  /** One step of that walk: what the program is after it, and where it goes on. */
  lemma WalkStep(pre: Code, paren: bool, no: nat, alts: seq<Branch>, k: nat, p: nat, end: Byte) returns (k': nat, t: nat, off: nat, d: Code)
    requires Walk(pre, paren, no, alts, k, p) && alts != [] && end != BRANCH && end != BACK
    requires |pre| + |Front(paren, no)| + AltsLen(alts) + 3 < 0x8000
    ensures k' <= |alts| && d == Joined(pre, paren, no, alts, k') + Node(end, 0)
    ensures var c := Joined(pre, paren, no, alts, k) + Node(end, 0);
            && p + 2 < |c| == |d|
            && (c[p] == BRANCH ==> Links(c, p + 3, t, off, d) && c[t] != BACK && off == |pre| + |Front(paren, no)| + AltsLen(alts) - t)
            && (c[p] != BRANCH ==> c == d)
    ensures d[p] != BACK && Walk(pre, paren, no, alts, k', if Field(d, p) == 0 then -1 else p + Field(d, p))
  {
    hide AltsCode, Links, Chain, Node, Joined, BranchAt, Front;
    k', t, off := k, 0, 0;
    var base := |pre| + |Front(paren, no)|;
    if paren && p == |pre| {
      HookFirst(pre, no, alts, end);
    } else if k < |alts| {
      HookStep(pre, paren, no, alts, k, end);
      t, off, k' := base + BranchTail(alts, k), AltsLen(alts) - BranchTail(alts, k), k + 1;
    } else {
      HookLast(Joined(pre, paren, no, alts, k), end);
    }
    d := Joined(pre, paren, no, alts, k') + Node(end, 0);
  }
}
