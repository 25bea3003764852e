/** The byte programs of the regular expression compiler, as a function of the syntax tree.
    Offsets are relative, so the code of a tree is the same wherever it is placed. */
module RegexCode {
  import opened Bytes
  import opened Ascii
  import opened RegexSyntax

  const END: Byte := 0
  const BOL: Byte := 1
  const EOL: Byte := 2
  const ANY: Byte := 3
  const ANYOF: Byte := 4
  const ANYBUT: Byte := 5
  const BRANCH: Byte := 6
  const BACK: Byte := 7
  const EXACTLY: Byte := 8
  const NOTHING: Byte := 9
  const STAR: Byte := 10
  const PLUS: Byte := 11
  const OPEN: Byte := 20
  const CLOSE: Byte := 30

  type Code = seq<Byte>

  /** A node: opcode and the distance to the next node, 0 for none. */
  function Node(op: Byte, off: nat): (c: Code)
    ensures |c| == 3
  {
    [op, off % 256, off / 256 % 256]
  }

  /** The offset stored at p. */
  function Field(c: Code, p: nat): nat
    requires p + 2 < |c|
  {
    c[p + 1] as int + 256 * (c[p + 2] as int)
  }

  /** An exit x places from the start of some code, seen from t places further on. */
  function Sub(x: nat, t: nat): nat
    requires x == 0 || t <= x
  {
    if x == 0 then 0 else x - t
  }

  /** The operand of a group's opening and closing nodes. */
  function GroupOp(base: Byte, no: nat): Byte
    requires base <= 30
  {
    if no < NSUBEXP then base + no else base
  }

  // ---------------------------------------------------------------- sizes

  function Len(r: Re): (n: nat)
    ensures n >= 3
    decreases r
  {
    match r
    case Bol => 3
    case Eol => 3
    case Any => 3
    case OneOf(cs) => 4 + |cs|
    case NoneOf(cs) => 4 + |cs|
    case Lit(cs) => 4 + |cs|
    case Group(_, alts) => 6 + AltsLen(alts)
    case Star(x) => if Simple(x) then 3 + Len(x) else 12 + Len(x)
    case Plus(x) => if Simple(x) then 3 + Len(x) else 12 + Len(x)
    case Opt(x) => 9 + Len(x)
  }

  function SeqLen(ps: seq<Re>): (n: nat)
    ensures n >= 3
    decreases ps
  {
    if ps == [] then 3 else if |ps| == 1 then Len(ps[0]) else Len(ps[0]) + SeqLen(ps[1..])
  }

  function AltsLen(alts: seq<Branch>): nat
    decreases alts
  {
    if alts == [] then 0 else 3 + SeqLen(alts[0].ps) + AltsLen(alts[1..])
  }

  // ---------------------------------------------------------------- code

  /** The code of r whose exit is x places from its start; 0 while the exit is not known. */
  function Asm(r: Re, x: nat): (c: Code)
    requires x == 0 || Len(r) <= x
    ensures |c| == Len(r)
    decreases r, 0
  {
    match r
    case Bol => Node(BOL, x)
    case Eol => Node(EOL, x)
    case Any => Node(ANY, x)
    case OneOf(cs) => Node(ANYOF, x) + Chars(cs) + [0]
    case NoneOf(cs) => Node(ANYBUT, x) + Chars(cs) + [0]
    case Lit(cs) => Node(EXACTLY, x) + Chars(cs) + [0]
    case Group(no, alts) =>
      Node(GroupOp(OPEN, no), 3) + AltsCode(alts, |alts|, true) + Node(GroupOp(CLOSE, no), Sub(x, Len(r) - 3))
    case Star(r') =>
      if Simple(r') then Node(STAR, x) + Asm(r', 0)
      else StarHead(r', Len(r')) + Node(BACK, Len(r') + 3) + Node(BRANCH, 3) + Node(NOTHING, Sub(x, Len(r) - 3))
    case Plus(r') =>
      if Simple(r') then Node(PLUS, x) + Asm(r', 0)
      else Asm(r', Len(r')) + PlusLoop(Len(r')) + Node(NOTHING, Sub(x, Len(r) - 3))
    case Opt(r') =>
      Node(BRANCH, 3 + Len(r')) + Asm(r', Len(r') + 3) + Node(BRANCH, 3) + Node(NOTHING, Sub(x, Len(r) - 3))
  }

  /** The branch that x* begins with, x included. */
  function StarHead(r: Re, x: nat): (c: Code)
    requires x == 0 || Len(r) <= x
    ensures |c| == 3 + Len(r)
    decreases r, 1
  {
    Node(BRANCH, Len(r) + 6) + Asm(r, x)
  }

  /** What follows x in x+, up to its last node. */
  function PlusLoop(n: nat): (c: Code)
    ensures |c| == 9
  {
    Node(BRANCH, 6) + Node(BACK, n + 3) + Node(BRANCH, 3)
  }

  function Chars(cs: seq<Ch>): (c: Code)
    ensures |c| == |cs| && forall i :: 0 <= i < |cs| ==> c[i] == cs[i]
  {
    seq(|cs|, i requires 0 <= i < |cs| => cs[i])
  }

  function SeqAsm(ps: seq<Re>, x: nat): (c: Code)
    requires x == 0 || SeqLen(ps) <= x
    ensures |c| == SeqLen(ps)
    decreases ps, 0
  {
    if ps == [] then Node(NOTHING, x)
    else if |ps| == 1 then Asm(ps[0], x)
    else Asm(ps[0], Len(ps[0])) + SeqAsm(ps[1..], Sub(x, Len(ps[0])))
  }

  /** Alternatives, each a BRANCH node and its pieces. The first k of them lead to the node
      after the last; the last one is linked to that node when `closed`. */
  function AltsCode(alts: seq<Branch>, k: nat, closed: bool): (c: Code)
    ensures |c| == AltsLen(alts)
    decreases alts, 0
  {
    if alts == [] then []
    else
      var ps := alts[0].ps;
      Node(BRANCH, if |alts| == 1 && !closed then 0 else 3 + SeqLen(ps))
      + SeqAsm(ps, if k > 0 then AltsLen(alts) - 3 else 0)
      + AltsCode(alts[1..], if k > 0 then k - 1 else 0, closed)
  }

  // ------------------------------------------------------------ last nodes

  /** Where the last node of r's chain of nodes is, counted from its start. */
  function Tail(r: Re): (t: nat)
    ensures t + 3 <= Len(r)
  {
    match r
    case Group(_, _) => Len(r) - 3
    case Star(x) => if Simple(x) then 0 else Len(r) - 3
    case Plus(x) => if Simple(x) then 0 else Len(r) - 3
    case Opt(_) => Len(r) - 3
    case _ => 0
  }

  function SeqTail(ps: seq<Re>): (t: nat)
    ensures t + 3 <= SeqLen(ps)
    decreases ps
  {
    if ps == [] then 0 else if |ps| == 1 then Tail(ps[0]) else Len(ps[0]) + SeqTail(ps[1..])
  }

  /** Where the last BRANCH node is. */
  function LastBranch(alts: seq<Branch>): (t: nat)
    requires alts != []
    ensures t + 3 <= AltsLen(alts)
    decreases alts
  {
    if |alts| == 1 then 0 else 3 + SeqLen(alts[0].ps) + LastBranch(alts[1..])
  }

  // ----------------------------------------------------------- patching

  /** The offset at p set to off. */
  function Patch(c: Code, p: nat, off: nat): (d: Code)
    requires p + 2 < |c|
    ensures |d| == |c|
  {
    c[p + 1 := off % 256][p + 2 := off / 256 % 256]
  }

  lemma PatchInside(a: Code, b: Code, d: Code, t: nat, off: nat)
    requires t + 2 < |b|
    ensures Patch(a + b + d, |a| + t, off) == a + Patch(b, t, off) + d
  {
  }

  lemma PatchRight(a: Code, b: Code, t: nat, off: nat)
    requires t + 2 < |b|
    ensures Patch(a + b, |a| + t, off) == a + Patch(b, t, off)
  {
  }

  lemma PatchEnd(a: Code, op: Byte, off: nat, off': nat)
    ensures Patch(a + Node(op, off), |a|, off') == a + Node(op, off')
  {
  }

  lemma PatchStart(op: Byte, off: nat, off': nat, b: Code)
    ensures Patch(Node(op, off) + b, 0, off') == Node(op, off') + b
  {
  }

  /** The opcode of what is compiled to one node and an operand. */
  function OpOf(r: Re): (op: Byte)
    ensures op != BACK && op != BRANCH
  {
    match r
    case Bol => BOL
    case Eol => EOL
    case Any => ANY
    case OneOf(_) => ANYOF
    case NoneOf(_) => ANYBUT
    case Lit(_) => EXACTLY
    case Star(_) => STAR
    case _ => PLUS
  }

  /** Compiled to one node and an operand. */
  predicate SingleNode(r: Re) {
    match r
    case Group(_, _) => false
    case Star(x) => Simple(x)
    case Plus(x) => Simple(x)
    case Opt(_) => false
    case _ => true
  }

  /** What follows that node. */
  function OperandOf(r: Re): Code {
    match r
    case OneOf(cs) => Chars(cs) + [0]
    case NoneOf(cs) => Chars(cs) + [0]
    case Lit(cs) => Chars(cs) + [0]
    case Star(x) => Asm(x, 0)
    case Plus(x) => Asm(x, 0)
    case _ => []
  }

  lemma SingleUnfold(r: Re, x: nat)
    requires SingleNode(r) && (x == 0 || Len(r) <= x)
    ensures Asm(r, x) == Node(OpOf(r), x) + OperandOf(r) && Tail(r) == 0
  {
  }

  lemma GroupUnfold(no: nat, alts: seq<Branch>, x: nat)
    requires x == 0 || AltsLen(alts) + 6 <= x
    ensures Asm(Group(no, alts), x) == Node(GroupOp(OPEN, no), 3) + AltsCode(alts, |alts|, true)
                                       + Node(GroupOp(CLOSE, no), Sub(x, 3 + AltsLen(alts)))
  {
  }

  lemma StarUnfold(r: Re, x: nat)
    requires (x == 0 || Len(r) + 12 <= x) && !Simple(r)
    ensures Asm(Star(r), x) == StarHead(r, Len(r)) + Node(BACK, Len(r) + 3) + Node(BRANCH, 3) + Node(NOTHING, Sub(x, Len(r) + 9))
    ensures StarHead(r, Len(r)) == Node(BRANCH, Len(r) + 6) + Asm(r, Len(r))
  {
    hide Simple, Node;
  }

  lemma PlusUnfold(r: Re, x: nat)
    requires (x == 0 || Len(r) + 12 <= x) && !Simple(r)
    ensures Asm(Plus(r), x) == Asm(r, Len(r)) + PlusLoop(Len(r)) + Node(NOTHING, Sub(x, Len(r) + 9))
  {
    hide PlusLoop, Simple, Node;
  }

  lemma OptUnfold(r: Re, x: nat)
    requires x == 0 || Len(r) + 9 <= x
    ensures Asm(Opt(r), x) == Node(BRANCH, 3 + Len(r)) + Asm(r, Len(r) + 3) + Node(BRANCH, 3) + Node(NOTHING, Sub(x, Len(r) + 6))
  {
  }

  /** Setting the exit of code whose exit was not known. */
  lemma PatchAsm(r: Re, x: nat)
    requires Len(r) <= x
    ensures Patch(Asm(r, 0), Tail(r), x - Tail(r)) == Asm(r, x)
  {
    hide Asm, Node, Patch;
    if SingleNode(r) {
      SingleUnfold(r, 0); SingleUnfold(r, x);
      PatchStart(OpOf(r), 0, x, OperandOf(r));
    } else {
      PatchLoop(r, x);
    }
  }

  lemma PatchLoop(r: Re, x: nat)
    requires Len(r) <= x && !SingleNode(r)
    ensures Patch(Asm(r, 0), Tail(r), x - Tail(r)) == Asm(r, x)
  {
    hide Asm, Node, Patch, Len, AltsCode, Simple;
    var t := Tail(r);
    match r
    case Group(no, alts) =>
      GroupUnfold(no, alts, 0); GroupUnfold(no, alts, x);
      PatchEnd(Node(GroupOp(OPEN, no), 3) + AltsCode(alts, |alts|, true), GroupOp(CLOSE, no), 0, x - t);
    case Star(r') =>
      StarUnfold(r', 0); StarUnfold(r', x);
      PatchEnd(StarHead(r', Len(r')) + Node(BACK, Len(r') + 3) + Node(BRANCH, 3), NOTHING, 0, x - t);
    case Plus(r') =>
      PlusUnfold(r', 0); PlusUnfold(r', x);
      PatchEnd(Asm(r', Len(r')) + PlusLoop(Len(r')), NOTHING, 0, x - t);
    case Opt(r') =>
      OptUnfold(r', 0); OptUnfold(r', x);
      PatchEnd(Node(BRANCH, 3 + Len(r')) + Asm(r', Len(r') + 3) + Node(BRANCH, 3), NOTHING, 0, x - t);
    case _ =>
  }

  lemma SeqStep(ps: seq<Re>, x: nat)
    requires |ps| > 1 && (x == 0 || SeqLen(ps) <= x)
    ensures SeqAsm(ps, x) == Asm(ps[0], Len(ps[0])) + SeqAsm(ps[1..], Sub(x, Len(ps[0])))
    ensures SeqLen(ps) == Len(ps[0]) + SeqLen(ps[1..]) && SeqTail(ps) == Len(ps[0]) + SeqTail(ps[1..])
  {
  }

  lemma SeqFew(ps: seq<Re>, x: nat)
    requires |ps| <= 1 && (x == 0 || SeqLen(ps) <= x)
    ensures ps == [] ==> SeqAsm(ps, x) == Node(NOTHING, x) && SeqLen(ps) == 3 && SeqTail(ps) == 0
    ensures |ps| == 1 ==> SeqAsm(ps, x) == Asm(ps[0], x) && SeqLen(ps) == Len(ps[0]) && SeqTail(ps) == Tail(ps[0])
  {
  }

  lemma PatchNode(op: Byte, off: nat)
    ensures Patch(Node(op, 0), 0, off) == Node(op, off)
  {
  }

  lemma {:induction false} PatchSeq(ps: seq<Re>, x: nat)
    requires SeqLen(ps) <= x
    ensures Patch(SeqAsm(ps, 0), SeqTail(ps), x - SeqTail(ps)) == SeqAsm(ps, x)
    decreases ps
  {
    hide Asm, SeqAsm, SeqTail, SeqLen, Patch, Node;
    if |ps| <= 1 {
      SeqFew(ps, 0); SeqFew(ps, x);
      if ps == [] { PatchNode(NOTHING, x); } else { PatchAsm(ps[0], x); }
    } else {
      var first := Asm(ps[0], Len(ps[0]));
      SeqStep(ps, 0); SeqStep(ps, x);
      PatchSeq(ps[1..], x - Len(ps[0]));
      PatchRight(first, SeqAsm(ps[1..], 0), SeqTail(ps[1..]), x - SeqTail(ps));
    }
  }

  /** Linking the last alternative to what comes after it. */
  lemma {:induction false} PatchLastBranch(alts: seq<Branch>)
    requires alts != []
    ensures Patch(AltsCode(alts, 0, false), LastBranch(alts), AltsLen(alts) - LastBranch(alts)) == AltsCode(alts, 0, true)
    decreases alts
  {
    hide Node, AltsLen, SeqAsm;
    var ps := alts[0].ps;
    if |alts| == 1 {
      assert AltsCode(alts[1..], 0, false) == [] == AltsCode(alts[1..], 0, true);
      PatchStart(BRANCH, 0, 3 + SeqLen(ps), SeqAsm(ps, 0));
    } else {
      var first := Node(BRANCH, 3 + SeqLen(ps)) + SeqAsm(ps, 0);
      PatchLastBranch(alts[1..]);
      PatchRight(first, AltsCode(alts[1..], 0, false), LastBranch(alts[1..]), AltsLen(alts) - LastBranch(alts));
    }
  }

  /** Where the k-th BRANCH node is. */
  function BranchAt(alts: seq<Branch>, k: nat): (t: nat)
    requires k < |alts|
    ensures t + 3 + SeqLen(alts[k].ps) <= AltsLen(alts)
    decreases alts
  {
    if k == 0 then 0 else 3 + SeqLen(alts[0].ps) + BranchAt(alts[1..], k - 1)
  }

  lemma AltsStep(alts: seq<Branch>, k: nat, closed: bool)
    requires alts != []
    ensures AltsCode(alts, k, closed) == Node(BRANCH, if |alts| == 1 && !closed then 0 else 3 + SeqLen(alts[0].ps))
                                         + SeqAsm(alts[0].ps, if k > 0 then AltsLen(alts) - 3 else 0)
                                         + AltsCode(alts[1..], if k > 0 then k - 1 else 0, closed)
  {
  }

  /** Where the last node of the k-th alternative is. */
  function BranchTail(alts: seq<Branch>, k: nat): (t: nat)
    requires k < |alts|
    ensures t + 3 <= AltsLen(alts)
  {
    BranchAt(alts, k) + 3 + SeqTail(alts[k].ps)
  }

  /** Leading the k-th alternative to the node after the last one. */
  lemma {:induction false} PatchBranch(alts: seq<Branch>, k: nat)
    requires k < |alts|
    ensures Patch(AltsCode(alts, k, true), BranchTail(alts, k), AltsLen(alts) - BranchTail(alts, k)) == AltsCode(alts, k + 1, true)
    decreases alts
  {
    hide SeqAsm, Node, AltsCode, Patch, SeqLen;
    AltsStep(alts, k, true);
    AltsStep(alts, k + 1, true);
    if k == 0 {
      PatchFirstBranch(alts);
    } else {
      PatchBranch(alts[1..], k - 1);
      var t := BranchTail(alts[1..], k - 1);
      var head := Node(BRANCH, 3 + SeqLen(alts[0].ps)) + SeqAsm(alts[0].ps, AltsLen(alts) - 3);
      assert BranchTail(alts, k) == |head| + t && AltsLen(alts) == |head| + AltsLen(alts[1..]);
      PatchRight(head, AltsCode(alts[1..], k - 1, true), t, AltsLen(alts[1..]) - t);
    }
  }

  lemma PatchFirstBranch(alts: seq<Branch>)
    requires alts != []
    ensures Patch(AltsCode(alts, 0, true), BranchTail(alts, 0), AltsLen(alts) - BranchTail(alts, 0)) == AltsCode(alts, 1, true)
  {
    hide SeqAsm, Node, AltsCode, Patch, Simple;
    AltsStep(alts, 0, true);
    AltsStep(alts, 1, true);
    var ps, n := alts[0].ps, AltsLen(alts) - 3;
    PatchSeq(ps, n);
    PatchInside(Node(BRANCH, 3 + SeqLen(ps)), SeqAsm(ps, 0), AltsCode(alts[1..], 0, true), SeqTail(ps), n - SeqTail(ps));
  }

  lemma {:induction false} SeqSnoc(ps: seq<Re>, r: Re)
    requires ps != []
    ensures SeqLen(ps + [r]) == SeqLen(ps) + Len(r)
    ensures SeqAsm(ps + [r], 0) == SeqAsm(ps, SeqLen(ps)) + Asm(r, 0)
    ensures SeqTail(ps + [r]) == SeqLen(ps) + Tail(r)
    decreases ps
  {
    hide Asm, Node, Len, Tail;
    assert (ps + [r])[1..] == ps[1..] + [r];
    SeqStep(ps + [r], 0);
    if |ps| > 1 {
      SeqStep(ps, SeqLen(ps));
      hide SeqAsm, SeqTail, SeqLen;
      SeqSnoc(ps[1..], r);
      var a, b, d := Asm(ps[0], Len(ps[0])), SeqAsm(ps[1..], SeqLen(ps[1..])), Asm(r, 0);
      Assoc(a, b, d);
    } else {
      assert (ps + [r])[1..] == [r];
      assert SeqAsm([r], 0) == Asm(r, 0);
    }
  }

  lemma {:induction false} AltsSnoc(alts: seq<Branch>, b: Branch)
    ensures AltsLen(alts + [b]) == AltsLen(alts) + 3 + SeqLen(b.ps)
    ensures LastBranch(alts + [b]) == AltsLen(alts)
    ensures AltsCode(alts + [b], 0, false) == AltsCode(alts, 0, true) + (Node(BRANCH, 0) + SeqAsm(b.ps, 0))
    decreases alts
  {
    if alts == [] {
      assert alts + [b] == [b] && [b][1..] == [];
    } else {
      assert (alts + [b])[1..] == alts[1..] + [b];
      AltsSnoc(alts[1..], b);
    }
  }

  // ----------------------------------------------------------- placement

  /** `code` is found at b in c. */
  ghost predicate Has(c: Code, b: nat, code: Code) {
    b + |code| <= |c| && c[b..b + |code|] == code
  }

  lemma HasSize(c: Code, b: nat, code: Code)
    requires Has(c, b, code)
    ensures b + |code| <= |c|
  {
  }

  lemma HasBoth(c: Code, b: nat, x: Code, y: Code)
    ensures Has(c, b, x + y) <==> Has(c, b, x) && Has(c, b + |x|, y)
  {
    if b + |x| + |y| <= |c| {
      assert c[b..b + |x| + |y|] == c[b..b + |x|] + c[b + |x|..b + |x| + |y|];
      if Has(c, b, x + y) {
        assert (x + y)[..|x|] == x && (x + y)[|x|..] == y;
        SliceSlice(c, b, b + |x| + |y|, 0, |x|);
        SliceSlice(c, b, b + |x| + |y|, |x|, |x| + |y|);
      }
    }
  }

  lemma HasAll(c: Code, b: nat, x: Code, y: Code, z: Code)
    ensures Has(c, b, x + y + z) <==> Has(c, b, x) && Has(c, b + |x|, y) && Has(c, b + |x| + |y|, z)
  {
    HasBoth(c, b, x + y, z);
    HasBoth(c, b, x, y);
  }

  lemma HasMiddle(pre: Code, code: Code, post: Code)
    ensures Has(pre + code + post, |pre|, code)
  {
  }

  lemma NodeAt(c: Code, b: nat, op: Byte, off: nat)
    requires Has(c, b, Node(op, off)) && off < 0x1_0000
    ensures b + 2 < |c| && c[b] == op && Field(c, b) == off
  {
    var n := c[b..b + 3];
    assert n[0] == c[b] && n[1] == c[b + 1] && n[2] == c[b + 2];
  }

  /** Following next-offsets from p, none of them backwards, leads to t. */
  ghost predicate Chain(c: Code, p: nat, t: nat)
    decreases |c| - p
  {
    p + 2 < |c| &&
    (p == t || (c[p] != BACK && Field(c, p) > 0 && Chain(c, p + Field(c, p), t)))
  }

  lemma {:induction false} ChainJoin(c: Code, p: nat, m: nat, t: nat)
    requires Chain(c, p, m) && m + 2 < |c| && c[m] != BACK && Field(c, m) > 0 && Chain(c, m + Field(c, m), t)
    ensures Chain(c, p, t)
    decreases |c| - p
  {
    if p != m && p != t { ChainJoin(c, p + Field(c, p), m, t); }
  }

  /** Of two nodes on a chain, the chain leads from the earlier to the later. */
  lemma {:induction false} ChainFrom(c: Code, p: nat, s: nat, q: nat)
    requires Chain(c, p, s) && Chain(c, p, q) && s <= q
    ensures p <= s && Chain(c, s, q)
    decreases |c| - p
  {
    if p != s {
      if p == q { ChainForward(c, p, s); } else { ChainFrom(c, p + Field(c, p), s, q); }
    }
  }

  lemma {:induction false} ChainForward(c: Code, p: nat, q: nat)
    requires Chain(c, p, q)
    ensures p <= q && (p < q ==> c[p] != BACK && Field(c, p) > 0 && Chain(c, p + Field(c, p), q) && p + Field(c, p) <= q)
    decreases |c| - p
  {
    if p != q { ChainForward(c, p + Field(c, p), q); }
  }

  /** Two stretches of code one after the other, the first leading to the second. */
  lemma ChainOn(c: Code, b: nat, t: nat, n: nat, t': nat)
    requires t < n && b + t + 2 < |c| && Chain(c, b, b + t) && Field(c, b + t) == n - t && c[b + t] != BACK
    requires Chain(c, b + n, b + n + t')
    ensures Chain(c, b, b + n + t')
  {
    ChainJoin(c, b, b + t, b + n + t');
  }

  /** From the first node of r's code the chain leads to its last node, which holds the exit. */
  lemma {:induction false} ChainAsm(c: Code, b: nat, r: Re, x: nat)
    requires (x == 0 || Len(r) <= x < 0x1_0000) && Has(c, b, Asm(r, x)) && |c| < 0x8000
    ensures Chain(c, b, b + Tail(r)) && Field(c, b + Tail(r)) == Sub(x, Tail(r)) && c[b + Tail(r)] != BACK
    decreases r, 0
  {
    hide Asm, Has, Node, Simple, Chain, Field, PlusLoop, OpOf, AltsLen;
    match r
    case Group(no, alts) => ChainGroup(c, b, no, alts, x);
    case Star(r') => if Simple(r') { FirstNode(c, b, r, x); } else { ChainStar(c, b, r', x); }
    case Plus(r') =>
      if Simple(r') {
        FirstNode(c, b, r, x);
      } else {
        PlusParts(c, b, r', x);
        ChainAsm(c, b, r', Len(r'));
        ChainPlus(c, b, Len(r'), Tail(r'), x);
        assert Tail(r) == Len(r') + 9;
      }
    case Opt(r') => ChainOpt(c, b, r', x);
    case _ => FirstNode(c, b, r, x);
  }

  lemma FirstNode(c: Code, b: nat, r: Re, x: nat)
    requires SingleNode(r) && (x == 0 || Len(r) <= x < 0x1_0000) && Has(c, b, Asm(r, x))
    ensures b + 2 < |c| && c[b] == OpOf(r) && Field(c, b) == x && Chain(c, b, b)
  {
    SingleUnfold(r, x);
    hide Asm, Has, Node;
    HasBoth(c, b, Node(OpOf(r), x), OperandOf(r));
    NodeAt(c, b, OpOf(r), x);
  }

  /** The parts of the code of x+, for an x that is not simple. */
  lemma PlusParts(c: Code, b: nat, r: Re, x: nat)
    requires (x == 0 || Len(r) + 12 <= x) && !Simple(r) && Has(c, b, Asm(Plus(r), x))
    ensures b + Len(r) + 12 <= |c|
    ensures Has(c, b, Asm(r, Len(r))) && Has(c, b + Len(r), PlusLoop(Len(r)))
    ensures Has(c, b + Len(r) + 9, Node(NOTHING, Sub(x, Len(r) + 9)))
  {
    hide Asm, Has, Node, PlusLoop;
    PlusUnfold(r, x);
    HasAll(c, b, Asm(r, Len(r)), PlusLoop(Len(r)), Node(NOTHING, Sub(x, Len(r) + 9)));
    HasSize(c, b, Asm(Plus(r), x));
  }

  lemma ChainStar(c: Code, b: nat, r: Re, x: nat)
    requires (x == 0 || Len(r) + 12 <= x < 0x1_0000) && !Simple(r) && Has(c, b, Asm(Star(r), x)) && |c| < 0x8000
    ensures Chain(c, b, b + Len(r) + 9) && Field(c, b + Len(r) + 9) == Sub(x, Len(r) + 9) && c[b + Len(r) + 9] == NOTHING
  {
    hide Asm, Has, Node, Field, Chain;
    StarParts(c, b, r, x);
    var n := Len(r);
    NodeAt(c, b, BRANCH, n + 6);
    NodeAt(c, b + n + 6, BRANCH, 3);
    NodeAt(c, b + n + 9, NOTHING, Sub(x, n + 9));
    ChainHere(c, b + n + 9);
    ChainStep(c, b + n + 6, b + n + 9);
    ChainStep(c, b, b + n + 9);
  }

  /** The parts of the code of x*, for an x that is not simple. */
  lemma StarParts(c: Code, b: nat, r: Re, x: nat)
    requires (x == 0 || Len(r) + 12 <= x) && !Simple(r) && Has(c, b, Asm(Star(r), x))
    ensures b + Len(r) + 12 <= |c|
    ensures Has(c, b, Node(BRANCH, Len(r) + 6)) && Has(c, b + 3, Asm(r, Len(r)))
    ensures Has(c, b + Len(r) + 3, Node(BACK, Len(r) + 3)) && Has(c, b + Len(r) + 6, Node(BRANCH, 3))
    ensures Has(c, b + Len(r) + 9, Node(NOTHING, Sub(x, Len(r) + 9)))
  {
    hide Asm, Has, Node, StarHead;
    var n := Len(r);
    StarUnfold(r, x);
    HasBoth(c, b, StarHead(r, n) + Node(BACK, n + 3) + Node(BRANCH, 3), Node(NOTHING, Sub(x, n + 9)));
    HasAll(c, b, StarHead(r, n), Node(BACK, n + 3), Node(BRANCH, 3));
    HasBoth(c, b, Node(BRANCH, n + 6), Asm(r, n));
    HasSize(c, b, Asm(Star(r), x));
  }

  lemma ChainPlus(c: Code, b: nat, n: nat, t: nat, x: nat)
    requires t + 3 <= n && (x == 0 || n + 12 <= x < 0x1_0000) && |c| < 0x8000
    requires Has(c, b + n, PlusLoop(n)) && Has(c, b + n + 9, Node(NOTHING, Sub(x, n + 9)))
    requires Chain(c, b, b + t) && Field(c, b + t) == n - t && c[b + t] != BACK
    ensures Chain(c, b, b + n + 9) && Field(c, b + n + 9) == Sub(x, n + 9) && c[b + n + 9] == NOTHING
  {
    hide Has, Node, Field, Chain;
    assert PlusLoop(n) == Node(BRANCH, 6) + Node(BACK, n + 3) + Node(BRANCH, 3);
    HasAll(c, b + n, Node(BRANCH, 6), Node(BACK, n + 3), Node(BRANCH, 3));
    NodeAt(c, b + n, BRANCH, 6);
    NodeAt(c, b + n + 6, BRANCH, 3);
    NodeAt(c, b + n + 9, NOTHING, Sub(x, n + 9));
    ChainHere(c, b + n + 9);
    ChainStep(c, b + n + 6, b + n + 9);
    ChainStep(c, b + n, b + n + 9);
    ChainStep(c, b + t, b + n + 9);
    ChainJoin(c, b, b + t, b + n + 9);
  }

  lemma ChainOpt(c: Code, b: nat, r: Re, x: nat)
    requires (x == 0 || Len(r) + 9 <= x < 0x1_0000) && Has(c, b, Asm(Opt(r), x)) && |c| < 0x8000
    ensures Chain(c, b, b + Len(r) + 6) && Field(c, b + Len(r) + 6) == Sub(x, Len(r) + 6) && c[b + Len(r) + 6] == NOTHING
  {
    hide Asm, Has, Node, Field, Chain;
    OptParts(c, b, r, x);
    var n := Len(r);
    NodeAt(c, b, BRANCH, n + 3);
    NodeAt(c, b + n + 3, BRANCH, 3);
    NodeAt(c, b + n + 6, NOTHING, Sub(x, n + 6));
    ChainHere(c, b + n + 6);
    ChainStep(c, b + n + 3, b + n + 6);
    ChainStep(c, b, b + n + 6);
  }

  /** The parts of the code of x?. */
  lemma OptParts(c: Code, b: nat, r: Re, x: nat)
    requires (x == 0 || Len(r) + 9 <= x) && Has(c, b, Asm(Opt(r), x))
    ensures b + Len(r) + 9 <= |c|
    ensures Has(c, b, Node(BRANCH, Len(r) + 3)) && Has(c, b + 3, Asm(r, Len(r) + 3))
    ensures Has(c, b + Len(r) + 3, Node(BRANCH, 3)) && Has(c, b + Len(r) + 6, Node(NOTHING, Sub(x, Len(r) + 6)))
  {
    hide Asm, Has, Node;
    var n := Len(r);
    OptUnfold(r, x);
    HasBoth(c, b, Node(BRANCH, 3 + n) + Asm(r, n + 3) + Node(BRANCH, 3), Node(NOTHING, Sub(x, n + 6)));
    HasAll(c, b, Node(BRANCH, 3 + n), Asm(r, n + 3), Node(BRANCH, 3));
    HasSize(c, b, Asm(Opt(r), x));
  }

  lemma ChainGroup(c: Code, b: nat, no: nat, alts: seq<Branch>, x: nat)
    requires (x == 0 || Len(Group(no, alts)) <= x < 0x1_0000) && Has(c, b, Asm(Group(no, alts), x)) && |c| < 0x8000
    ensures Chain(c, b, b + 3 + AltsLen(alts))
    ensures Field(c, b + 3 + AltsLen(alts)) == Sub(x, 3 + AltsLen(alts)) && c[b + 3 + AltsLen(alts)] != BACK
  {
    hide Asm, AltsCode, Has, Node;
    GroupParts(c, b, no, alts, x);
    var n := AltsLen(alts);
    NodeAt(c, b, GroupOp(OPEN, no), 3);
    NodeAt(c, b + 3 + n, GroupOp(CLOSE, no), Sub(x, 3 + n));
    ChainAlts(c, b + 3, alts, |alts|);
  }

  /** The parts of the code of a group. */
  lemma GroupParts(c: Code, b: nat, no: nat, alts: seq<Branch>, x: nat)
    requires (x == 0 || Len(Group(no, alts)) <= x) && Has(c, b, Asm(Group(no, alts), x))
    ensures b + AltsLen(alts) + 6 <= |c|
    ensures Has(c, b, Node(GroupOp(OPEN, no), 3)) && Has(c, b + 3, AltsCode(alts, |alts|, true))
    ensures Has(c, b + 3 + AltsLen(alts), Node(GroupOp(CLOSE, no), Sub(x, 3 + AltsLen(alts))))
  {
    hide Asm, Has, Node, AltsCode;
    GroupUnfold(no, alts, x);
    HasAll(c, b, Node(GroupOp(OPEN, no), 3), AltsCode(alts, |alts|, true),
           Node(GroupOp(CLOSE, no), Sub(x, 3 + AltsLen(alts))));
    HasSize(c, b, Asm(Group(no, alts), x));
  }

  /** The parts of the code of the first of some alternatives. */
  lemma AltsParts(c: Code, b: nat, alts: seq<Branch>, k: nat, closed: bool)
    requires alts != [] && Has(c, b, AltsCode(alts, k, closed))
    ensures b + AltsLen(alts) <= |c|
    ensures Has(c, b, Node(BRANCH, if |alts| == 1 && !closed then 0 else 3 + SeqLen(alts[0].ps)))
    ensures Has(c, b + 3, SeqAsm(alts[0].ps, if k > 0 then AltsLen(alts) - 3 else 0))
    ensures Has(c, b + 3 + SeqLen(alts[0].ps), AltsCode(alts[1..], if k > 0 then k - 1 else 0, closed))
  {
    AltsStep(alts, k, closed);
    hide Has, AltsCode, SeqAsm, Node;
    HasAll(c, b, Node(BRANCH, if |alts| == 1 && !closed then 0 else 3 + SeqLen(alts[0].ps)),
           SeqAsm(alts[0].ps, if k > 0 then AltsLen(alts) - 3 else 0),
           AltsCode(alts[1..], if k > 0 then k - 1 else 0, closed));
    HasSize(c, b, AltsCode(alts, k, closed));
  }

  /** Linked alternatives lead from one BRANCH to the next and on to what follows. */
  lemma {:induction false} ChainAlts(c: Code, b: nat, alts: seq<Branch>, k: nat)
    requires Has(c, b, AltsCode(alts, k, true)) && b + AltsLen(alts) + 2 < |c| < 0x8000
    ensures Chain(c, b, b + AltsLen(alts))
    decreases alts
  {
    hide AltsCode, SeqAsm, Has;
    if alts != [] {
      AltsParts(c, b, alts, k, true);
      NodeAt(c, b, BRANCH, 3 + SeqLen(alts[0].ps));
      ChainAlts(c, b + 3 + SeqLen(alts[0].ps), alts[1..], if k > 0 then k - 1 else 0);
    }
  }

  /** Before they are linked to what follows, they lead to the last BRANCH. */
  lemma {:induction false} ChainOpenAlts(c: Code, b: nat, alts: seq<Branch>)
    requires alts != [] && Has(c, b, AltsCode(alts, 0, false)) && |c| < 0x8000
    ensures Chain(c, b, b + LastBranch(alts)) && Field(c, b + LastBranch(alts)) == 0 && c[b + LastBranch(alts)] == BRANCH
    decreases alts
  {
    hide AltsCode, SeqAsm, Has;
    AltsParts(c, b, alts, 0, false);
    if |alts| == 1 {
      NodeAt(c, b, BRANCH, 0);
    } else {
      NodeAt(c, b, BRANCH, 3 + SeqLen(alts[0].ps));
      ChainOpenAlts(c, b + 3 + SeqLen(alts[0].ps), alts[1..]);
    }
  }

  lemma ChainStep(c: Code, p: nat, t: nat)
    requires p + 2 < |c| && c[p] != BACK && Field(c, p) > 0 && Chain(c, p + Field(c, p), t)
    ensures Chain(c, p, t)
  {
    hide Field;
  }

  lemma ChainHere(c: Code, p: nat)
    requires p + 2 < |c|
    ensures Chain(c, p, p)
  {
  }

  /** The chain of a whole alternative. */
  lemma {:induction false} ChainSeq(c: Code, b: nat, ps: seq<Re>, x: nat)
    requires (x == 0 || SeqLen(ps) <= x < 0x1_0000) && Has(c, b, SeqAsm(ps, x)) && |c| < 0x8000
    ensures Chain(c, b, b + SeqTail(ps)) && Field(c, b + SeqTail(ps)) == Sub(x, SeqTail(ps)) && c[b + SeqTail(ps)] != BACK
    decreases ps
  {
    hide SeqAsm, Asm, Has, Node, Field, Chain;
    SeqParts(c, b, ps, x);
    if ps == [] {
      NodeAt(c, b, NOTHING, x);
      ChainHere(c, b);
    } else if |ps| == 1 {
      ChainAsm(c, b, ps[0], x);
    } else {
      var n := Len(ps[0]);
      ChainAsm(c, b, ps[0], n);
      ChainSeq(c, b + n, ps[1..], Sub(x, n));
      ChainOn(c, b, Tail(ps[0]), n, SeqTail(ps[1..]));
    }
  }

  /** The code of an alternative is that of its first piece and of the rest. */
  lemma SeqParts(c: Code, b: nat, ps: seq<Re>, x: nat)
    requires (x == 0 || SeqLen(ps) <= x) && Has(c, b, SeqAsm(ps, x))
    ensures b + SeqLen(ps) <= |c|
    ensures ps == [] ==> Has(c, b, Node(NOTHING, x))
    ensures |ps| == 1 ==> Has(c, b, Asm(ps[0], x))
    ensures |ps| > 1 ==> Has(c, b, Asm(ps[0], Len(ps[0]))) && Has(c, b + Len(ps[0]), SeqAsm(ps[1..], Sub(x, Len(ps[0]))))
  {
    hide Asm, Has, Node;
    HasSize(c, b, SeqAsm(ps, x));
    if |ps| == 0 {
      assert SeqAsm(ps, x) == Node(NOTHING, x);
    } else if |ps| == 1 {
      assert SeqAsm(ps, x) == Asm(ps[0], x);
    } else {
      SeqStep(ps, x);
      hide SeqAsm;
      HasBoth(c, b, Asm(ps[0], Len(ps[0])), SeqAsm(ps[1..], Sub(x, Len(ps[0]))));
    }
  }
}
