/** The backtracking matcher, which runs a compiled program on a text. */
module RegexMatcher {
  import opened Bytes
  import opened Ascii
  import opened RegexSyntax
  import opened RegexLang
  import opened RegexCode
  import opened RegexCont
  import opened RegexWays
  import opened RegexOrder
  import opened RegexSteps
  import opened RegexRun
  import opened RegexCompiler
  import opened RegexEmit
  import opened RegexProgram
  import opened RegexReplace
  import RegexGrammar

  /** strncpy, of characters that are all there. */
  method Write(buf: array<Byte>, w: nat, cs: seq<Ch>)
    requires w + |cs| <= buf.Length
    modifies buf
    ensures buf[..w + |cs|] == old(buf[..w]) + cs && forall i :: w + |cs| <= i < buf.Length ==> buf[i] == old(buf[i])
  {
    forall i | 0 <= i < |cs| { buf[w + i] := cs[i]; }
  }

  class RegExp {
    var compiled: bool
    var program: array<Byte>
    var regstart: int
    var reganch: bool
    var regmust: int
    var text: seq<Ch>
    var reginput: nat
    const startp: array<int>
    const endp: array<int>
    var foundText: seq<Ch>
    var found: bool

    constructor ()
      ensures Valid() && !compiled && !found && fresh(startp) && fresh(endp)
    {
      startp, endp := new int[NSUBEXP](_ => -1), new int[NSUBEXP](_ => -1);
      compiled, program := false, new Byte[0];
      regstart, reganch, regmust := 0, false, -1;
      text, reginput, found, foundText := [], 0, false, [];
    }

    ghost predicate Valid()
      reads this
    {
      startp != endp && startp.Length == endp.Length == NSUBEXP
    }

    /** Ready to go on from reginput with k, whose first node is at p. */
    ghost predicate Ready(p: nat, k: Cont)
      reads this, program, startp, endp
    {
      && Valid() && reginput <= |text| && p == k.at && Placed(program[..], k) && Armed(k, reginput)
      && Unset(startp[..], endp[..])
    }

    /** regrepeat: how many times something simple matches. */
    method Repeat(node: nat, ghost x: Re) returns (count: nat)
      requires reginput <= |text| && Simple(x) && Has(program[..], node, Asm(x, 0))
      ensures Count(x, text, reginput, count)
    {
      hide Asm, Has;
      OperandTakes(program[..], node, x);
      count := 0;
      var op := program[node];
      if op == ANY {
        count := |text| - reginput;
      } else if op == EXACTLY {
        var ch := program[node + 3];
        var scan := reginput;
        while CharAt(text, scan) == ch
          invariant scan == reginput + count <= |text|
          invariant forall p :: reginput <= p < scan ==> Takes(x, text[p])
          decreases |text| - scan
        {
          scan, count := scan + 1, count + 1;
        }
      } else if op == ANYOF {
        count := Span(text, reginput, StrAt(program[..], node + 3), true);
      } else if op == ANYBUT {
        count := Span(text, reginput, StrAt(program[..], node + 3), false);
      } else {
        assert false;
      }
    }

    /** A node that takes a fixed string or character, or tests the position. */
    method Single(scan: nat, ghost r: Re, ghost x: nat) returns (ok: bool)
      requires reginput <= |text| && SingleNode(r) && !r.Star? && !r.Plus? && Sound(r)
      requires Len(r) <= x < 0x8000 && Has(program[..], scan, Asm(r, x))
      modifies this`reginput
      ensures forall marks: seq<Mark> :: Ways(r, text, Way(old(reginput), marks)) == if ok then [Way(reginput, marks)] else []
    {
      hide Asm, Has;
      OperandAt(program[..], scan, r, x);
      var op := program[scan];
      if op == BOL {
        ok := reginput == 0;
      } else if op == EOL {
        ok := CharAt(text, reginput) == 0;
      } else if op == ANY {
        ok := CharAt(text, reginput) != 0;
        if ok { reginput := reginput + 1; }
      } else if op == EXACTLY {
        var opnd := StrAt(program[..], scan + 3);
        ok := program[scan + 3] == CharAt(text, reginput);
        if ok {
          var len := |opnd|;
          ok := len <= 1 || (reginput + len <= |text| && text[reginput..reginput + len] == opnd);
          if ok { reginput := reginput + len; }
        }
      } else if op == ANYOF {
        ok := CharAt(text, reginput) != 0 && text[reginput] in StrAt(program[..], scan + 3);
        if ok { reginput := reginput + 1; }
      } else {
        ok := CharAt(text, reginput) != 0 && text[reginput] !in StrAt(program[..], scan + 3);
        if ok { reginput := reginput + 1; }
      }
    }

    /** The alternatives of a BRANCH, one after the other. */
    method TryBranches(prog: nat, ghost k: Cont, ghost marks: seq<Mark>, ghost cs: seq<Cont>) returns (r: bool)
      requires Ready(prog, k) && Chooses(program[..], text, k, Way(reginput, marks), cs)
      modifies this`reginput, startp, endp
      ensures Outcome(text, k, Way(old(reginput), marks), r, reginput, startp[..], endp[..])
      decreases |text| - reginput, Weight(k, reginput), 0
    {
      hide Order, OrderAll, Placed, Armed, Opened, Weight, Follows;
      var scan: nat, save := prog, reginput;
      ghost var c, w := program[..], Way(reginput, marks);
      ghost var more := cs;
      r := false;
      while program[scan] == BRANCH
        invariant ChoicesAt(c, scan, more) && reginput == save && Unset(startp[..], endp[..])
        invariant forall q :: 0 <= q < |more| ==> Nearer(c, k, save, more[q])
        invariant OrderAll(cs, text, w) == OrderAll(more, text, w)
        decreases |more|
      {
        ghost var o, others := more[0], more[1..];
        assert more == [o] + others;
        r := RunFrom(scan + 3, o, marks);
        if r {
          OutcomeChoice(c, text, k, w, cs, o, others, reginput, startp[..], endp[..]);
          return;
        }
        OrderNext(o, others, text, w);
        reginput := save;
        scan := RegNext(program, scan);
        more := others;
      }
      OrderNone(text, w);
      OutcomeNoChoice(c, text, k, w, cs, reginput, startp[..], endp[..]);
    }

    /** A simple loop: as often as possible first, then less and less often. */
    method TryCounts(scan: nat, next: nat, ghost k: Cont, ghost marks: seq<Mark>) returns (r: bool)
      requires Ready(scan, k) && k.K? && k.frame.One? && (k.frame.r.Star? || k.frame.r.Plus?) && Simple(k.frame.r.r)
      requires next == k.rest.at
      modifies this`reginput, startp, endp
      ensures Outcome(text, k, Way(old(reginput), marks), r, reginput, startp[..], endp[..])
      decreases |text| - reginput, Weight(k, reginput), 0
    {
      hide Asm, Has, Order, OrderAfter, Fewer, Armed, Opened, Weight, Outcome;
      ghost var c, w := program[..], Way(reginput, marks);
      NodeOfFrame(c, k);
      LoopOperand(c, scan, k.frame.r, next - scan);
      if program[next] == EXACTLY { LiteralFits(c, k.rest); }
      var nextch := if program[next] == EXACTLY then program[next + 3] else 0;
      var save := reginput;
      var min := if program[scan] == STAR then 0 else 1;
      var count := Repeat(scan + 3, k.frame.r.r);
      LoopExits(text, k, w, count);
      var no := count + 1;
      while no > min
        invariant no <= count + 1 && Unset(startp[..], endp[..])
        invariant Order(k, text, w) == OrderAfter(k.rest, text, Fewer(w, no as int - 1, min))
      {
        ghost var at := Way(save + no - 1, marks);
        reginput := save + no - 1;
        LoopExit(c, text, k, w, no - 1);
        r := TryRest(next, nextch, k.rest, marks);
        if r {
          OutcomeExit(text, k, w, no - 1, min, reginput, startp[..], endp[..]);
          return;
        }
        OutcomeFailed(text, k.rest, at, reginput, startp[..], endp[..]);
        LoopLess(text, k, w, no - 1, min);
        no := no - 1;
      }
      OutcomeNoExit(text, k, w, no as int - 1, min, reginput, startp[..], endp[..]);
      r := false;
    }

    /** What follows a simple loop, unless the literal that it begins with cannot be here. */
    method TryRest(next: nat, nextch: int, ghost k: Cont, ghost marks: seq<Mark>) returns (r: bool)
      requires Ready(next, k) && (program[next] == EXACTLY ==> next + 3 < program.Length)
      requires nextch == if program[next] == EXACTLY then program[next + 3] else 0
      modifies this`reginput, startp, endp
      ensures Outcome(text, k, Way(old(reginput), marks), r, reginput, startp[..], endp[..])
      decreases |text| - reginput, Weight(k, reginput), 2
    {
      hide Order, Armed, Placed, Weight, Follows, Caught, Opened;
      if nextch == 0 || CharAt(text, reginput) == nextch {
        r := RunFrom(next, k, marks);
      } else {
        if Order(k, text, Way(reginput, marks)) != [] { FirstCharacter(program[..], text, k, Way(reginput, marks)); }
        r := false;
      }
    }

    /** The opening node of a group: its start is noted unless a later round has done so. */
    method Enter(no: nat, prog: nat, ghost scan: nat, ghost k: Cont, ghost marks: seq<Mark>) returns (r: bool)
      requires Ready(scan, k) && k.K? && k.frame.One? && k.frame.r.Group? && no == k.frame.r.no && prog == scan + 3
      modifies this`reginput, startp, endp
      ensures Outcome(text, k, Way(old(reginput), marks), r, reginput, startp[..], endp[..])
      decreases |text| - reginput, Weight(k, reginput), 0
    {
      hide Asm, Has, Order, Armed, Weight, AltsCode, Outcome;
      ghost var w := Way(reginput, marks);
      ghost var w' := Marked(w, true, no);
      ghost var k' := StepGroup(program[..], text, k, w);
      assert Opened(k') == {no} + Opened(k);
      var input := reginput;
      r := RunFrom(prog, k', w'.marks);
      ghost var sp := startp[..];
      OutcomeSize(text, k', w', r, reginput, sp, endp[..]);
      if r && startp[no] == -1 { startp[no] := input; }
      OutcomeOpen(text, k, k', no, w, r, reginput, sp, endp[..], startp[..]);
    }

    /** The closing node of a group: its end is noted unless a later round has done so. */
    method Leave(no: nat, prog: nat, ghost scan: nat, ghost k: Cont, ghost marks: seq<Mark>) returns (r: bool)
      requires Ready(scan, k) && k.K? && k.frame.Shut? && no == k.frame.no && prog == k.rest.at
      modifies this`reginput, startp, endp
      ensures Outcome(text, k, Way(old(reginput), marks), r, reginput, startp[..], endp[..])
      decreases |text| - reginput, Weight(k, reginput), 0
    {
      hide Asm, Has, Order, Armed, Weight, AltsCode, Outcome;
      ghost var w := Way(reginput, marks);
      ghost var w' := Marked(w, false, no);
      StepShut(program[..], text, k, w);
      var input := reginput;
      r := RunFrom(prog, k.rest, w'.marks);
      ghost var ep := endp[..];
      OutcomeSize(text, k.rest, w', r, reginput, startp[..], ep);
      if r && endp[no] == -1 { endp[no] := input; }
      OutcomeShut(text, k, no, w, r, reginput, startp[..], ep, endp[..]);
    }

    /** regmatch: from the node at prog to the end of the program, along the first way that
        succeeds. */
    method RunFrom(prog: nat, ghost k: Cont, ghost marks: seq<Mark>) returns (r: bool)
      requires Ready(prog, k)
      modifies this`reginput, startp, endp
      ensures Outcome(text, k, Way(old(reginput), marks), r, reginput, startp[..], endp[..])
      decreases |text| - reginput, Weight(k, reginput), 1
    {
      hide Asm, Has, Order, Armed, Opened, Weight, AltsCode, Outcome, Chooses, Same, Unset, Len, Sound;
      ghost var c := program[..];
      ghost var w0, k', w := Way(reginput, marks), k, Way(reginput, marks);
      GoingStart(c, text, k, w0);
      var scan: int := prog;
      while scan >= 0
        invariant scan >= 0 && w == Way(reginput, marks) && Going(c, text, k, w0, k', w) && Ready(scan, k')
        decreases |text| - reginput, Weight(k', reginput)
      {
        k' := GoingNormal(c, text, k, w0, k', w);
        WhichFrame(c, k');
        var next := RegNext(program, scan);
        var op := program[scan];
        if op == END {
          r := true;
          OutcomeStop(text, k', w, startp[..], endp[..]);
          OutcomeBefore(c, text, k, w0, k', w, r, reginput, startp[..], endp[..]);
          return;
        } else if op == NOTHING || op == BACK {
          k' := GoingOver(c, text, k, w0, k', w);
          scan := next;
        } else if OPEN < op < OPEN + NSUBEXP {
          r := Enter(op - OPEN, next, scan, k', marks);
          OutcomeBefore(c, text, k, w0, k', w, r, reginput, startp[..], endp[..]);
          return;
        } else if CLOSE < op < CLOSE + NSUBEXP {
          r := Leave(op - CLOSE, next, scan, k', marks);
          OutcomeBefore(c, text, k, w0, k', w, r, reginput, startp[..], endp[..]);
          return;
        } else if op == BRANCH {
          ghost var cs := Choices(c, text, k', w);
          ChoicesStart(c, text, k', w, cs);
          if program[next] != BRANCH {
            GoingOnly(c, text, k, w0, k', w, cs);
            k' := cs[0];
            scan := scan + 3;
          } else {
            r := TryBranches(scan, k', marks, cs);
            OutcomeBefore(c, text, k, w0, k', w, r, reginput, startp[..], endp[..]);
            return;
          }
        } else if op == STAR || op == PLUS {
          r := TryCounts(scan, next, k', marks);
          OutcomeBefore(c, text, k, w0, k', w, r, reginput, startp[..], endp[..]);
          return;
        } else {
          var ok := Single(scan, k'.frame.r, k'.rest.at - scan);
          if !ok {
            OutcomeFail(c, text, k, w0, k', w, reginput, startp[..], endp[..]);
            return false;
          }
          GoingPast(c, text, k, w0, k', w, reginput);
          k', w := k'.rest, Way(reginput, marks);
          scan := next;
        }
      }
      r := false;
    }

    // -------------------------------------------------------- compilation

    /** The program of the pattern alts, with shortcuts that hold of every match. */
    ghost predicate Holds(alts: seq<Branch>)
      reads this`compiled, this`program, this`regstart, this`reganch, this`regmust, program
    {
      && compiled && ProgramOf(program[..], alts)
      && 0 <= regstart
      && (regstart != 0 ==> forall s: seq<Ch>, i: nat, j: nat :: AltsMatch(alts, s, i, j) ==> CharAt(s, i) == regstart)
      && (reganch ==> forall s: seq<Ch>, i: nat, j: nat :: AltsMatch(alts, s, i, j) ==> i == 0)
      && -1 <= regmust < program.Length
      && (regmust >= 0 ==> MustHave(alts, StrAt(program[..], regmust)))
    }

    /** RegComp: measures the program of a pattern, then emits it, and digs out the shortcuts. */
    method Compile(exp: seq<Ch>) returns (ok: bool)
      requires ParsePattern(exp).Accept? ==> |Whole(false, 1, ParsePattern(exp).value)| < 0x8000
      modifies this`compiled, this`program, this`regstart, this`reganch, this`regmust
      ensures ok == ParsePattern(exp).Accept? && (ok <==> exists alts :: RegexGrammar.Spells(exp, alts))
      ensures ok ==> RegexGrammar.Spells(exp, ParsePattern(exp).value)
      ensures ok ==> Holds(ParsePattern(exp).value) && Kept(ParsePattern(exp).value)
    {
      SpelledOrNot(exp);
      hide Whole, ParseReg;
      compiled := true;
      var compiler := new Compiler(exp);
      var ret, flags;
      ok, ret, flags := compiler.Expression(false);
      if !ok { return; }
      compiler.emitting, compiler.program := true, new Byte[compiler.size];
      compiler.parse, compiler.npar, compiler.code := 0, 1, 0;
      ok, ret, flags := compiler.Expression(false);
      program := compiler.program;
      PatternSound(exp);
      assert program[..] == Whole(false, 1, ParsePattern(exp).value);
      FindShortcuts(flags.spstart, ParsePattern(exp).value);
    }

    /** The shortcuts are kept whenever there are any: a pattern of one alternative that begins
        with a literal or an anchor, and the longest literal if it begins with a loop. */
    ghost predicate Kept(alts: seq<Branch>)
      reads this`program, this`regstart, this`reganch, this`regmust, program
    {
      && program.Length > 6
      && regstart == (if |alts| == 1 && program[3] == EXACTLY then program[6] as int else 0)
      && reganch == (|alts| == 1 && program[3] == BOL)
      && if |alts| == 1 && AltsStarStart(alts) then LongestBefore(program[..], 3, regmust, program.Length) else regmust == -1
    }

    /** The end of RegComp: what every match of a pattern with one alternative begins with, and
        the longest of the literals it has to pass. */
    method FindShortcuts(spstart: bool, ghost alts: seq<Branch>)
      requires compiled && ProgramOf(program[..], alts) && spstart == AltsStarStart(alts)
      modifies this`regstart, this`reganch, this`regmust
      ensures Holds(alts) && Kept(alts)
    {
      hide ProgramOf, MustHave, AltsMatch, StrAt, Bare, Passes, Forward, Placed, Whole, AltsSound, Walking, LongestBefore, AltsStarStart;
      regstart, reganch, regmust := 0, false, -1;
      OnlyAlternative(program[..], alts);
      if program[RegNext(program, 0)] == END {
        var scan := 3;
        ghost var k := WalkStart(program[..], alts);
        k := WalkOn(program[..], alts, scan, k);
        if program[scan] == EXACTLY {
          StartCharacter(program[..], alts);
          regstart := program[scan + 3];
        } else if program[scan] == BOL {
          StartAnchor(program[..], alts);
          reganch := true;
        }
        if spstart { regmust := LongestLiteral(scan, alts); }
      }
    }

    method LongestLiteral(first: nat, ghost alts: seq<Branch>) returns (longest: int)
      requires ProgramOf(program[..], alts) && |alts| == 1 && first == 3
      ensures -1 <= longest < program.Length && (longest >= 0 ==> MustHave(alts, StrAt(program[..], longest)))
      ensures LongestBefore(program[..], 3, longest, program.Length)
    {
      hide ProgramOf, MustHave, AltsMatch, StrAt, Walking, LongestBefore, Chain;
      ghost var c := program[..];
      var scan: int := first;
      ghost var k := WalkStart(c, alts);
      var len := 0;
      longest := -1;
      LongestNone(c, alts, k);
      while scan >= 0
        invariant -1 <= longest < program.Length && (scan >= 0 ==> Walking(c, alts, scan, k) && Chain(c, 3, scan) && longest < scan + 3)
        invariant longest >= 0 ==> MustHave(alts, StrAt(c, longest))
        invariant len == if longest >= 0 then |StrAt(c, longest)| else 0
        invariant LongestBefore(c, 3, longest, if scan >= 0 then scan else |c|)
        decreases if scan >= 0 then program.Length - scan + 1 else 0
      {
        k := WalkOn(c, alts, scan, k);
        ghost var before, at := longest, scan;
        if program[scan] == EXACTLY && |StrAt(program[..], scan + 3)| >= len {
          longest := scan + 3;
          len := |StrAt(program[..], longest)|;
        }
        scan := RegNext(program, scan);
        LongestStep(c, 3, before, at, longest, if scan >= 0 then scan else |c|);
        if scan >= 0 { ChainNext(c, 3, at); }
      }
    }

    // ------------------------------------------------------------ searching

    /** The match from `at` to `end` is the first of all in the order of preference, and the ends
        of the groups are the last that are marked on its way. */
    ghost predicate FirstWay(alts: seq<Branch>, at: nat, end: int)
      reads this`text, startp, endp
    {
      var ws := AltsWays(alts, text, Way(at, []));
      ws != [] && ws[0].at == end && Recorded(ws[0].marks, startp[..], endp[..])
    }

    lemma FirstWayMatch(alts: seq<Branch>, at: nat, end: nat)
      requires AltsSound(alts) && FirstWay(alts, at, end)
      ensures AltsMatch(alts, text, at, end)
    {
      hide AltsWays, AltsMatch;
      var ws := AltsWays(alts, text, Way(at, []));
      ReachBy(ws, ws[0]);
      AltsWaysMatch(alts, text, Way(at, []), end);
    }

    /** regtry: a match at one place. */
    method TryAt(at: nat, ghost alts: seq<Branch>) returns (ok: bool)
      requires Valid() && Holds(alts) && at <= |text|
      modifies this`reginput, startp, endp
      ensures ok ==> FirstWay(alts, at, reginput) && GroupsWithin(at, reginput)
      ensures !ok ==> !MatchesAt(alts, text, at)
    {
      hide AltsMatch, Order, Placed, Armed, AltsWays, Whole, MustHave;
      reginput := at;
      var i := NSUBEXP;
      while i > 0
        invariant 0 <= i <= NSUBEXP && reginput == at && forall no :: 0 <= no < NSUBEXP - i ==> startp[no] == -1 == endp[no]
      {
        startp[NSUBEXP - i], endp[NSUBEXP - i] := -1, -1;
        i := i - 1;
      }
      TopPlaced(program[..], alts, at);
      assert Unset(startp[..], endp[..]);
      ok := RunFrom(0, Top(alts), []);
      TopOrder(alts, text, Way(at, []));
      AltsWaysSome(alts, text, Way(at, []));
      if ok {
        ghost var sp, ep := startp[..], endp[..];
        startp[0] := at;
        endp[0] := reginput;
        assert startp[..] == sp[0 := at] && endp[..] == ep[0 := reginput];
        assert Follows(Way(at, []), AltsWays(alts, text, Way(at, []))[0], sp, ep);
      }
    }

    /** The ends of every group are both unset, or in order and within the whole match. */
    ghost predicate GroupsWithin(at: nat, end: nat)
      reads this, startp, endp
    {
      && Valid() && startp[0] == at <= end == endp[0] <= |text|
      && forall no :: 1 <= no < NSUBEXP ==> startp[no] == -1 == endp[no] || at <= startp[no] <= endp[no] <= end
    }

    /** What the last search found, as far as it is remembered. */
    ghost predicate Remembered()
      reads this, startp, endp
    {
      Valid() && (found ==> 0 <= startp[0] <= endp[0] && GroupsWithin(startp[0], endp[0]) && foundText == text[startp[0]..endp[0]])
    }

    /** GetFindLen, and the text found at `at`. */
    method Keep(at: nat)
      requires Valid() && endp[0] >= 0 && GroupsWithin(at, endp[0])
      modifies this`found, this`foundText
      ensures found && Remembered() && startp[0] == at && at + |foundText| == endp[0]
    {
      var len := if startp[0] == -1 || endp[0] == -1 then 0 else endp[0] - startp[0];
      found, foundText := true, text[at..at + len];
    }

    /** The outcome of a search: the smallest place with a match, or -1 when there is none. */
    ghost predicate Searched(alts: seq<Branch>, str: seq<Ch>, pos: int)
      reads this, startp, endp
    {
      && Remembered() && -1 <= pos <= |str| && (found <==> pos >= 0)
      && (forall i: nat :: (pos == -1 || i < pos) ==> !MatchesAt(alts, str, i))
      && (pos >= 0 ==> text == str && startp[0] == pos && FirstWay(alts, pos, pos + |foundText|))
    }

    /** RegFind: the place of the first match. The scan for a first character looks behind the
        first character of the text before it looks for the end. */
    method Find(str: seq<Ch>, ghost alts: seq<Branch>) returns (pos: int)
      requires Valid() && (compiled ==> Holds(alts)) && (regstart != 0 ==> str != [])
      modifies this`text, this`reginput, this`found, this`foundText, startp, endp
      ensures !compiled ==> pos == -1
      ensures compiled ==> Searched(alts, str, pos)
    {
      hide ProgramOf, AltsMatch, StrAt, FirstWay, MatchesAt;
      found := false;
      pos := -1;
      if !compiled { return; }
      if regmust >= 0 && !Occurs(StrAt(program[..], regmust), str) {
        NoMatch(alts, StrAt(program[..], regmust), str);
        return;
      }
      text := str;
      var s: int, ok := 0, false;
      if reganch {
        ok := TryAt(0, alts);
        forall i: nat | i > 0 ensures !MatchesAt(alts, text, i) { NoMatchLater(alts, text, i); }
      } else if regstart != 0 {
        s, ok := ScanFrom(alts);
      } else {
        s, ok := ScanAll(alts);
      }
      if ok {
        pos := s;
        Keep(pos);
      }
    }

    /** The search when nothing is known of a match: place after place, the end included. */
    method ScanAll(ghost alts: seq<Branch>) returns (s: nat, ok: bool)
      requires Valid() && Holds(alts) && !found
      modifies this`reginput, startp, endp
      ensures ok ==> s <= |text| && FirstWay(alts, s, reginput) && GroupsWithin(s, reginput)
      ensures forall i: nat :: (!ok || i < s) ==> !MatchesAt(alts, text, i)
    {
      hide ProgramOf, AltsMatch, StrAt, FirstWay, MustHave, MatchesAt;
      s := 0;
      ok := TryAt(s, alts);
      while !ok && s < |text|
        invariant 0 <= s <= |text|
        invariant forall i: nat :: i < s ==> !MatchesAt(alts, text, i)
        invariant ok ==> FirstWay(alts, s, reginput) && GroupsWithin(s, reginput)
        invariant !ok ==> !MatchesAt(alts, text, s)
        decreases |text| - s, if ok then 0 else 1
      {
        s := s + 1;
        ok := TryAt(s, alts);
      }
      forall i: nat | i > |text| ensures !MatchesAt(alts, text, i) { NoMatchBeyond(alts, text, i); }
    }

    /** The search when the first character of a match is known. */
    method ScanFrom(ghost alts: seq<Branch>) returns (s: int, ok: bool)
      requires Valid() && Holds(alts) && !found && regstart != 0 && text != []
      modifies this`reginput, startp, endp
      ensures ok ==> 0 <= s <= |text| && FirstWay(alts, s, reginput) && GroupsWithin(s, reginput)
      ensures forall i: nat :: (!ok || i < s) ==> !MatchesAt(alts, text, i)
    {
      hide ProgramOf, AltsMatch, StrAt, FirstWay;
      s, ok := 0, false;
      while s >= 0
        invariant -1 <= s < |text|
        invariant forall i: nat :: (s < 0 || i < s) ==> !MatchesAt(alts, text, i)
        decreases if s >= 0 then |text| - s else 0
      {
        ok := TryAt(s, alts);
        if ok { return; }
        var next := IndexFrom(text, s + 1, regstart);
        forall i: nat | s < i && (next < 0 || i < next) ensures !MatchesAt(alts, text, i) {
          NoMatchStart(alts, regstart, text, i);
        }
        s := next;
      }
    }

    // ------------------------------------------------------------ replacing

    /** GetReplaceString: measures the expansion of src, then writes it, and a NUL after it. */
    method Replacement(src: seq<Ch>) returns (ok: bool, buf: array<Byte>)
      requires Remembered()
      ensures ok == found && fresh(buf)
      ensures ok ==>
                var cs := Expansion(src, 0, text, startp[..], endp[..]);
                buf.Length == |cs| + 1 && buf[..|cs|] == cs && buf[|cs|] == 0
      ensures ok ==> forall xs: seq<Part> :: Readable(xs) && AllWritten(xs) == src ==>
                       buf[..buf.Length - 1] == AllMeaning(xs, text, startp[..], endp[..])
    {
      hide Expansion, Readable, AllWritten, AllMeaning;
      ok := found;
      if !ok {
        buf := new Byte[0];
        return;
      }
      var replacelen := ReplacementLength(src);
      buf := new Byte[replacelen + 1];
      buf[replacelen] := 0;
      WriteExpansion(src, buf);
      ghost var sp, ep := startp[..], endp[..];
      forall xs: seq<Part> | Readable(xs) && AllWritten(xs) == src ensures Expansion(src, 0, text, sp, ep) == AllMeaning(xs, text, sp, ep) {
        assert src[0..] == src;
        ExpansionMeans(src, 0, xs, text, sp, ep);
      }
    }

    /** The second pass over a replacement. */
    method WriteExpansion(src: seq<Ch>, buf: array<Byte>)
      requires Valid() && Remembered() && found && |Expansion(src, 0, text, startp[..], endp[..])| <= buf.Length
      modifies buf
      ensures var cs := Expansion(src, 0, text, old(startp[..]), old(endp[..]));
              buf[..|cs|] == cs && forall i :: |cs| <= i < buf.Length ==> buf[i] == old(buf[i])
    {
      hide Expansion, Caption, NextItem, Remembered;
      ghost var t, sp, ep := text, startp[..], endp[..];
      ghost var all := Expansion(src, 0, t, sp, ep);
      var p, w: nat := 0, 0;
      while p < |src|
        invariant p <= |src| && w + |Expansion(src, p, t, sp, ep)| == |all|
        invariant buf[..w] + Expansion(src, p, t, sp, ep) == all
        invariant forall i :: |all| <= i < buf.Length ==> buf[i] == old(buf[i])
        decreases |src| - p
      {
        ExpansionStep(src, p, t, sp, ep);
        var item := NextItem(src, p);
        var cs := [item.ch];
        if item.no >= 0 { cs := FoundGroup(item.no); }
        ghost var done, more := buf[..w], Expansion(src, item.next, t, sp, ep);
        Assoc(done, cs, more);
        Write(buf, w, cs);
        w := w + |cs|;
        p := item.next;
      }
      ExpansionStep(src, p, t, sp, ep);
    }

    /** The part of the found text that a group caught. */
    method FoundGroup(no: nat) returns (cs: seq<Ch>)
      requires no < NSUBEXP && Remembered() && found
      ensures cs == Caption(no, text, startp[..], endp[..])
    {
      cs := [];
      if startp[no] != -1 && endp[no] != -1 && endp[no] > startp[no] {
        var len := endp[no] - startp[no];
        var tagpos := startp[no] - startp[0];
        cs := foundText[tagpos..tagpos + len];
        SliceSlice(text, startp[0], endp[0], tagpos, tagpos + len);
      }
    }

    /** The first pass over a replacement. */
    method ReplacementLength(src: seq<Ch>) returns (replacelen: nat)
      requires Remembered() && found
      ensures replacelen == |Expansion(src, 0, text, startp[..], endp[..])|
    {
      ghost var t, sp, ep := text, startp[..], endp[..];
      var p := 0;
      replacelen := 0;
      while p < |src|
        invariant p <= |src| && replacelen + |Expansion(src, p, t, sp, ep)| == |Expansion(src, 0, t, sp, ep)|
        decreases |src| - p
      {
        var item := NextItem(src, p);
        if item.no < 0 {
          replacelen := replacelen + 1;
        } else if startp[item.no] != -1 && endp[item.no] != -1 && endp[item.no] > startp[item.no] {
          replacelen := replacelen + (endp[item.no] - startp[item.no]);
        }
        p := item.next;
      }
    }
  }

  /** The program of a pattern begins with a literal, so that the search knows the first
      character of every match. */
  predicate StartKnown(alts: seq<Branch>) {
    |alts| == 1 && |Whole(false, 1, alts)| > 3 && Whole(false, 1, alts)[3] == EXACTLY
  }

  /** A pattern has a tree exactly if it is accepted, and then one only. */
  lemma SpelledOrNot(p: seq<Ch>)
    ensures ParsePattern(p).Accept? <==> exists alts :: RegexGrammar.Spells(p, alts)
    ensures forall alts :: RegexGrammar.Spells(p, alts) <==> ParsePattern(p).Accept? && ParsePattern(p).value == alts
  {
    hide ParsePattern;
    forall alts
      ensures RegexGrammar.Spells(p, alts) <==> ParsePattern(p).Accept? && ParsePattern(p).value == alts
    {
      RegexGrammar.ParsesIffSpelled(p, alts);
    }
    if ParsePattern(p).Accept? { assert RegexGrammar.Spells(p, ParsePattern(p).value); }
  }

  /** strRegexp: the pattern is well formed and matches somewhere in the text. */
  method StrRegexp(pattern: seq<Ch>, str: seq<Ch>) returns (r: bool)
    requires ParsePattern(pattern).Accept? ==> |Whole(false, 1, ParsePattern(pattern).value)| < 0x8000
    requires ParsePattern(pattern).Accept? && StartKnown(ParsePattern(pattern).value) ==> str != []
    ensures r <==> exists alts, i: nat :: RegexGrammar.Spells(pattern, alts) && MatchesAt(alts, str, i)
  {
    hide ParsePattern, Whole, MatchesAt;
    SpelledOrNot(pattern);
    var regexp := new RegExp();
    r := regexp.Compile(pattern);
    if r {
      var pos := regexp.Find(str, ParsePattern(pattern).value);
      r := pos != -1;
      if r {
        PatternSound(pattern);
        regexp.FirstWayMatch(ParsePattern(pattern).value, pos, pos + |regexp.foundText|);
        MatchAt(ParsePattern(pattern).value, str, pos, pos + |regexp.foundText|);
      }
    }
  }

  lemma MatchAt(alts: seq<Branch>, s: seq<Ch>, i: nat, j: nat)
    requires AltsMatch(alts, s, i, j)
    ensures MatchesAt(alts, s, i)
  {
  }
}
