/** The two-pass compiler: the same recursive descent first measures the program, then
    emits it, linking nodes as it goes. */
module RegexCompiler {
  import opened Bytes
  import opened Ascii
  import opened RegexSyntax
  import opened RegexCode
  import opened RegexEmit

  /** What is passed up by the parsing methods: HASWIDTH, SIMPLE, SPSTART. */
  datatype Flags = Flags(width: bool, simple: bool, spstart: bool)

  function FlagsOf(r: Re): Flags {
    Flags(Width(r), Simple(r), StarStart(r))
  }

  /** regnext: the node after p, if it has one. */
  function RegNext(program: array<Byte>, p: nat): (next: int)
    requires p + 2 < program.Length
    reads program
  {
    var offset := program[p + 1] as int + 256 * (program[p + 2] as int);
    if offset == 0 then -1 else if program[p] == BACK then p - offset else p + offset
  }

  class Compiler {
    const exp: seq<Ch>
    var emitting: bool
    var program: array<Byte>
    var parse: nat
    var npar: nat
    var code: nat
    var size: nat

    constructor (pattern: seq<Ch>)
      ensures exp == pattern && !emitting && parse == 0 && npar == 1 && size == 0 && fresh(program)
    {
      exp := pattern;
      emitting, program, parse, npar, code, size := false, new Byte[0], 0, 1, 0, 0;
    }

    /** In the emitting pass, n more bytes fit. */
    ghost predicate Room(n: nat)
      reads this`emitting, this`code, this`program
    {
      emitting ==> code + n <= program.Length < 0x8000
    }

    /** The program emitted so far. */
    ghost function Out(): (c: Code)
      reads this`code, this`program, program
      ensures code <= program.Length ==> |c| == code
    {
      if code <= program.Length then program[..code] else []
    }

    /** What was emitted since there was `out`, or measured since the size was `measured`. */
    ghost predicate Emitted(out: Code, measured: nat, piece: Code)
      reads this`emitting, this`code, this`size, this`program, program
    {
      if emitting then code == |out| + |piece| <= program.Length && Out() == out + piece
      else size == measured + |piece|
    }

    /** In the emitting pass, c is all there is so far. */
    ghost predicate At(c: Code)
      reads this`emitting, this`code, this`program, program
    {
      emitting ==> code == |c| <= program.Length && Out() == c
    }

    /** regc: one byte. */
    method EmitByte(b: Byte)
      requires Room(1)
      modifies this`code, this`size, program
      ensures Emitted(old(Out()), old(size), [b]) && (!emitting ==> code == old(code))
    {
      if emitting {
        program[code] := b;
        code := code + 1;
      } else {
        size := size + 1;
      }
    }

    /** regnode: a node whose next-offset is empty. */
    method EmitNode(op: Byte) returns (ret: nat)
      requires Room(3)
      modifies this`code, this`size, program
      ensures ret == old(code)
      ensures Emitted(old(Out()), old(size), Node(op, 0)) && (!emitting ==> code == old(code))
    {
      ret := code;
      if !emitting {
        size := size + 3;
      } else {
        program[code], program[code + 1], program[code + 2] := op, 0, 0;
        code := code + 3;
      }
    }

    /** reginsert: an operator in front of the operand that was emitted at opnd, after pre. */
    method InsertNode(op: Byte, opnd: nat, ghost pre: Code, ghost operand: Code)
      requires Room(3) && (emitting ==> opnd == |pre| && Out() == pre + operand)
      modifies this`code, this`size, program
      ensures emitting ==> code == old(code) + 3 <= program.Length && Out() == pre + Node(op, 0) + operand
      ensures !emitting ==> size == old(size) + 3 && code == old(code)
    {
      if !emitting {
        size := size + 3;
        return;
      }
      MakeRoom(opnd);
      ghost var end := code + 3;
      assert program[opnd + 3..end] == operand && program[..opnd] == pre;
      code := code + 3;
      program[opnd], program[opnd + 1], program[opnd + 2] := op, 0, 0;
      assert program[opnd + 3..end] == operand && program[..opnd] == pre && program[opnd..opnd + 3] == Node(op, 0);
      ThreeParts(program[..], opnd, end);
    }

    lemma ThreeParts(c: Code, p: nat, end: nat)
      requires p + 3 <= end <= |c|
      ensures c[..end] == c[..p] + c[p..p + 3] + c[p + 3..end]
    {
    }

    /** What has been emitted from opnd on moves three places up, its last byte first. */
    method MakeRoom(opnd: nat)
      requires emitting && opnd <= code && code + 3 <= program.Length
      modifies program
      ensures program[..opnd] == old(program[..opnd]) && program[opnd + 3..code + 3] == old(program[opnd..code])
    {
      var src, dst := code, code + 3;
      while src > opnd
        invariant opnd <= src <= code && dst == src + 3
        invariant forall i :: 0 <= i < src ==> program[i] == old(program[i])
        invariant forall i :: dst <= i < code + 3 ==> program[i] == old(program[i - 3])
      {
        src, dst := src - 1, dst - 1;
        program[dst] := program[src];
      }
    }

    lemma NextAt(c: Code, p: nat)
      requires emitting && At(c) && p + 2 < |c|
      ensures p + 2 < program.Length
      ensures RegNext(program, p) == if Field(c, p) == 0 then -1 else if c[p] == BACK then p - Field(c, p) else p + Field(c, p)
    {
    }

    /** regtail: sets the next-offset of the last node of the chain that starts at p. */
    method SetTail(p: nat, val: nat, ghost c: Code, ghost t: nat, ghost off: nat, ghost d: Code)
      requires At(c) && (emitting ==> Links(c, p, t, off, d) && off == if c[t] == BACK then t - val else val - t)
      modifies program
      ensures At(d)
    {
      if !emitting { return; }
      var scan := p;
      var temp := RegNext(program, scan);
      while temp >= 0
        invariant scan + 2 < code && temp == RegNext(program, scan) && Chain(c, scan, t)
        decreases code - scan
      {
        scan := temp;
        temp := RegNext(program, scan);
      }
      var offset := if program[scan] == BACK then scan - val else val - scan;
      program[scan + 1], program[scan + 2] := offset % 256, offset / 256 % 256;
    }

    /** regoptail: regtail on the operand of a BRANCH; nothing on other nodes. */
    method SetOperandTail(p: nat, val: nat, ghost c: Code, ghost t: nat, ghost off: nat, ghost d: Code)
      requires At(c) && (emitting ==> p < |c|)
      requires emitting && c[p] == BRANCH ==> Links(c, p + 3, t, off, d) && off == if c[t] == BACK then t - val else val - t
      modifies program
      ensures emitting ==> At(if c[p] == BRANCH then d else c)
    {
      if !emitting || program[p] != BRANCH { return; }
      SetTail(p + 3, val, c, t, off, d);
    }

    // ------------------------------------------------------------- regatom

    lemma EmittedCode(out: Code, measured: nat, piece: Code)
      requires Emitted(out, measured, piece)
      ensures emitting ==> code == |out| + |piece|
    {
    }

    /** The NUL after the characters of an operand. */
    method EmitLast(ghost out: Code, ghost measured: nat, ghost piece: Code)
      requires Room(1) && Emitted(out, measured, piece)
      modifies this`code, this`size, program
      ensures Emitted(out, measured, piece + [0]) && (!emitting ==> code == old(code))
    {
      EmitByte(0);
      assert emitting ==> Out() == out + (piece + [0]);
    }

    /** A node that takes characters as its operand. */
    method EmitHead(op: Byte) returns (ret: nat)
      requires Room(3)
      modifies this`code, this`size, program
      ensures ret == old(code)
      ensures Emitted(old(Out()) + Node(op, 0), old(size) + 3, Chars([])) && (!emitting ==> code == old(code))
    {
      ret := EmitNode(op);
      assert emitting ==> Out() == old(Out()) + Node(op, 0) + Chars([]);
    }

    /** The same when the characters have been emitted: the node and its operand. */
    lemma WholeOperand(out: Code, measured: nat, op: Byte, operand: Code)
      requires Emitted(out + Node(op, 0), measured + 3, operand)
      ensures Emitted(out, measured, Node(op, 0) + operand)
    {
    }

    /** One more character of a bracket expression, after the characters cs. */
    method EmitMember(c: Ch, ghost cs: seq<Ch>, ghost out: Code, ghost measured: nat)
      requires Room(1) && Emitted(out, measured, Chars(cs))
      modifies this`code, this`size, program
      ensures Emitted(out, measured, Chars(cs + [c])) && (!emitting ==> code == old(code))
    {
      EmitByte(c);
      assert Chars(cs + [c]) == Chars(cs) + [c];
      assert emitting ==> Out() == out + Chars(cs + [c]);
    }

    /** The characters of a range after its first one, after the characters cs. */
    method EmitRange(lo: Ch, hi: Ch, ghost cs: seq<Ch>, ghost out: Code, ghost measured: nat)
      requires lo <= hi && Room(|RangeTail(lo, hi)|) && Emitted(out, measured, Chars(cs))
      modifies this`code, this`size, program
      ensures Emitted(out, measured, Chars(cs + RangeTail(lo, hi))) && (!emitting ==> code == old(code))
    {
      var range := lo + 1;
      ghost var done: seq<Ch> := cs;
      while range <= hi
        invariant lo <= range - 1 <= hi && done + RangeTail(range - 1, hi) == cs + RangeTail(lo, hi)
        invariant Emitted(out, measured, Chars(done)) && (!emitting ==> code == old(code))
        invariant Room(|RangeTail(range - 1, hi)|)
      {
        EmitMember(range, done, out, measured);
        done := done + [range];
        range := range + 1;
      }
    }

    /** The rest of a bracket expression; cs are the characters emitted so far. */
    method Class(ghost cs: seq<Ch>, ghost out: Code, ghost measured: nat) returns (ok: bool)
      requires parse > 0 && Emitted(out, measured, Chars(cs))
      requires emitting ==> ParseClass(exp, parse, cs).Accept?
      requires emitting ==> |out| + |ParseClass(exp, parse, cs).value| + 1 <= program.Length < 0x8000
      modifies this`parse, this`code, this`size, program
      ensures ok == old(ParseClass(exp, parse, cs)).Accept?
      ensures ok ==> parse == old(ParseClass(exp, parse, cs)).pos
      ensures ok ==> Emitted(out, measured, Chars(old(ParseClass(exp, parse, cs)).value) + [0])
      ensures !emitting ==> code == old(code)
    {
      hide ParseClass, Emitted, Chars, RangeTail;
      ghost var goal := ParseClass(exp, parse, cs);
      ghost var done: seq<Ch> := cs;
      var c := CharAt(exp, parse);
      parse := parse + 1;
      ok := true;
      while ok && c != 0 && c != RBRACKET
        invariant parse > 1 && (ok ==> c == CharAt(exp, parse - 1) && ParseClass(exp, parse - 1, done) == goal)
        invariant ok ==> Emitted(out, measured, Chars(done))
        invariant emitting ==> goal.Accept? && |out| + |goal.value| + 1 <= program.Length < 0x8000
        invariant !emitting ==> code == old(code)
        invariant !ok ==> goal.Reject?
        decreases if ok then 1 else 0, |exp| + 1 - parse
      {
        ClassUnfold(exp, parse - 1, done);
        EmittedCode(out, measured, Chars(done));
        if c != DASH {
          EmitMember(c, done, out, measured);
          done := done + [c];
        } else {
          c := CharAt(exp, parse);
          if c == RBRACKET || c == 0 {
            EmitMember(DASH, done, out, measured);
            done := done + [DASH];
          } else {
            var range := CharAt(exp, parse - 2);
            if range > c {
              ok := false;
            } else {
              EmitRange(range, c, done, out, measured);
              done := done + RangeTail(range, c);
              parse := parse + 1;
            }
          }
        }
        if ok {
          c := CharAt(exp, parse);
          parse := parse + 1;
        }
      }
      if ok {
        ClassUnfold(exp, parse - 1, done);
        EmittedCode(out, measured, Chars(done));
        EmitLast(out, measured, Chars(done));
        ok := c == RBRACKET;
      }
    }

    /** In the emitting pass, the item a is well formed and its code fits. */
    ghost predicate Fits(a: Parsed<Re>)
      reads this`emitting, this`code, this`program
    {
      emitting ==> a.Accept? && code + Len(a.value) <= program.Length < 0x8000
    }

    /** The outcome of parsing an item that the grammar parses as a: on success its code was
        emitted at start, after out, or measured. */
    ghost predicate Compiled(a: Parsed<Re>, ok: bool, ret: nat, flags: Flags, start: nat, out: Code, measured: nat)
      reads this`parse, this`npar, this`emitting, this`code, this`size, this`program, program
    {
      && ok == a.Accept?
      && (ok ==> ret == start && parse == a.pos && npar == a.npar && flags == FlagsOf(a.value)
                 && Emitted(out, measured, Asm(a.value, 0)))
      && (!emitting ==> code == start)
    }

    /** An ordinary run of n characters, or one escaped character. */
    method Literal(n: nat) returns (ret: nat)
      requires parse + n <= |exp| && Room(4 + n)
      modifies this`parse, this`code, this`size, program
      ensures ret == old(code) && parse == old(parse) + n
      ensures Emitted(old(Out()), old(size), Asm(Lit(exp[old(parse)..old(parse) + n]), 0)) && (!emitting ==> code == old(code))
    {
      hide Asm, Node, Chars, Emitted;
      ghost var cs := exp[parse..parse + n];
      ghost var out, measured := Out() + Node(EXACTLY, 0), size + 3;
      ret := EmitHead(EXACTLY);
      var len := n;
      assert cs[..n - len] == [];
      while len > 0
        invariant 0 <= len <= n && parse == old(parse) + (n - len) && Room(len + 1)
        invariant Emitted(out, measured, Chars(cs[..n - len])) && (!emitting ==> code == old(code))
      {
        EmitMember(exp[parse], cs[..n - len], out, measured);
        assert cs[..n - len] + [exp[parse]] == cs[..n - (len - 1)];
        parse, len := parse + 1, len - 1;
      }
      assert cs[..n] == cs;
      EmitLast(out, measured, Chars(cs));
      WholeOperand(old(Out()), old(size), EXACTLY, Chars(cs) + [0]);
      SingleUnfold(Lit(cs), 0);
    }

    /** The characters of a bracket expression, and the NUL after them. */
    method Members(ghost out: Code, ghost measured: nat) returns (ok: bool)
      requires parse > 0 && Emitted(out, measured, Chars([]))
      requires emitting ==> ParseMembers(exp, parse).Accept?
      requires emitting ==> |out| + |ParseMembers(exp, parse).value| + 1 <= program.Length < 0x8000
      modifies this`parse, this`code, this`size, program
      ensures ok == old(ParseMembers(exp, parse)).Accept?
      ensures ok ==> parse == old(ParseMembers(exp, parse)).pos
      ensures ok ==> Emitted(out, measured, Chars(old(ParseMembers(exp, parse)).value) + [0])
      ensures !emitting ==> code == old(code)
    {
      hide ParseClass, Emitted, Chars;
      EmittedCode(out, measured, Chars([]));
      ghost var cs: seq<Ch> := [];
      var c := CharAt(exp, parse);
      if c == RBRACKET || c == DASH {
        EmitMember(c, [], out, measured);
        cs := [c];
        assert [] + [c] == cs;
        parse := parse + 1;
      }
      ok := Class(cs, out, measured);
    }

    /** A bracket expression, from after the bracket. */
    method Bracket() returns (ok: bool, ret: nat, flags: Flags)
      requires parse > 0 && Fits(ParseBracket(exp, parse, npar))
      modifies this`parse, this`code, this`size, program
      ensures Compiled(old(ParseBracket(exp, parse, npar)), ok, ret, flags, old(code), old(Out()), old(size))
    {
      hide Emitted, Asm, Node, Chars, ParseMembers, Out;
      ghost var a, out, measured := ParseBracket(exp, parse, npar), Out(), size;
      var not := CharAt(exp, parse) == CARET;
      var op := if not then ANYBUT else ANYOF;
      ret := EmitHead(op);
      if not { parse := parse + 1; }
      ok := Members(out + Node(op, 0), measured + 3);
      flags := Flags(true, true, false);
      if ok {
        WholeOperand(out, measured, op, Chars(a.value.cs) + [0]);
        SingleUnfold(a.value, 0);
      }
    }

    // ------------------------------------------------------------ regpiece

    /** x* and x+ of a simple x: an operator in front of its operand. */
    method EmitSimple(op: Byte, ret: nat, ghost pre: Code, ghost r: Re, ghost whole: Re)
      requires Simple(r) && ((op == STAR && whole == Star(r)) || (op == PLUS && whole == Plus(r)))
      requires At(pre + Asm(r, 0)) && Room(3) && (emitting ==> ret == |pre|)
      modifies this`code, this`size, program
      ensures At(pre + Asm(whole, 0)) && (!emitting ==> code == old(code) && size == old(size) + 3)
    {
      hide Asm, Node;
      InsertNode(op, ret, pre, Asm(r, 0));
      SingleUnfold(whole, 0);
      assert pre + Node(op, 0) + Asm(r, 0) == pre + Asm(whole, 0);
    }

    /** x*, as an alternation of x followed by itself and of nothing. */
    method EmitStar(ret: nat, ghost pre: Code, ghost r: Re)
      requires !Simple(r) && At(pre + Asm(r, 0)) && Room(12) && (emitting ==> ret == |pre|)
      modifies this`code, this`size, program
      ensures At(pre + Asm(Star(r), 0)) && (!emitting ==> code == old(code) && size == old(size) + 12)
    {
      hide Asm, Node, Links, Out, Len;
      ghost var c1: Code, c2: Code, c3: Code := [], [], [];
      if emitting { c1, c2, c3 := StarSteps(pre, r); }
      InsertNode(BRANCH, ret, pre, Asm(r, 0));
      var back := EmitNode(BACK);
      SetOperandTail(ret, back, pre + Node(BRANCH, 0) + Asm(r, 0) + Node(BACK, 0), ret + 3 + Tail(r), Len(r) - Tail(r), c1);
      SetOperandTail(ret, ret, c1, back, Len(r) + 3, c2);
      var branch := EmitNode(BRANCH);
      SetTail(ret, branch, c2 + Node(BRANCH, 0), ret, Len(r) + 6, c3);
      var nothing := EmitNode(NOTHING);
      SetTail(ret, nothing, c3 + Node(NOTHING, 0), branch, 3, pre + Asm(Star(r), 0));
    }

    /** x+, as x followed by an alternation of a jump back to it and of nothing. */
    method EmitPlus(ret: nat, ghost pre: Code, ghost r: Re)
      requires !Simple(r) && At(pre + Asm(r, 0)) && Room(12) && (emitting ==> ret == |pre|)
      modifies this`code, this`size, program
      ensures At(pre + Asm(Plus(r), 0)) && (!emitting ==> code == old(code) && size == old(size) + 12)
    {
      hide Asm, Node, Links, Out, Len, Tail;
      ghost var c1: Code, c2: Code, c3: Code := [], [], [];
      if emitting { c1, c2, c3 := PlusSteps(pre, r); }
      var next := EmitNode(BRANCH);
      SetTail(ret, next, pre + Asm(r, 0) + Node(BRANCH, 0), ret + Tail(r), Len(r) - Tail(r), c1);
      var back := EmitNode(BACK);
      SetTail(back, ret, c1 + Node(BACK, 0), back, Len(r) + 3, c2);
      var branch := EmitNode(BRANCH);
      SetTail(next, branch, c2 + Node(BRANCH, 0), next, 6, c3);
      var nothing := EmitNode(NOTHING);
      SetTail(ret, nothing, c3 + Node(NOTHING, 0), branch, 3, pre + Asm(Plus(r), 0));
    }

    /** x?, as an alternation of x and of nothing. */
    method EmitOpt(ret: nat, ghost pre: Code, ghost r: Re)
      requires At(pre + Asm(r, 0)) && Room(9) && (emitting ==> ret == |pre|)
      modifies this`code, this`size, program
      ensures At(pre + Asm(Opt(r), 0)) && (!emitting ==> code == old(code) && size == old(size) + 9)
    {
      hide Asm, Node, Links, Out;
      ghost var c1: Code, c2: Code := [], [];
      if emitting { c1, c2 := OptSteps(pre, r); }
      InsertNode(BRANCH, ret, pre, Asm(r, 0));
      var branch := EmitNode(BRANCH);
      SetTail(ret, branch, pre + Node(BRANCH, 0) + Asm(r, 0) + Node(BRANCH, 0), ret, Len(r) + 3, c1);
      var next := EmitNode(NOTHING);
      SetTail(ret, next, c1 + Node(NOTHING, 0), branch, 3, c2);
      SetOperandTail(ret, next, c2, ret + 3 + Tail(r), Len(r) + 3 - Tail(r), pre + Asm(Opt(r), 0));
    }

    method Repetition(op: int, ret: nat, simple: bool, ghost pre: Code, ghost r: Re)
      requires IsRep(op) && simple == Simple(r) && At(pre + Asm(r, 0)) && (emitting ==> ret == |pre|)
      requires Room(Len(Repeat(r, op)) - Len(r))
      modifies this`code, this`size, program
      ensures At(pre + Asm(Repeat(r, op), 0))
      ensures !emitting ==> code == old(code) && size == old(size) + (Len(Repeat(r, op)) - Len(r))
    {
      hide Asm, Out;
      if op == ASTERISK && simple {
        EmitSimple(STAR, ret, pre, r, Star(r));
      } else if op == ASTERISK {
        EmitStar(ret, pre, r);
      } else if op == PLUS_SIGN && simple {
        EmitSimple(PLUS, ret, pre, r, Plus(r));
      } else if op == PLUS_SIGN {
        EmitPlus(ret, pre, r);
      } else {
        EmitOpt(ret, pre, r);
      }
    }

    /** What regbranch does with a piece it has just parsed. */
    method Append(chain: int, latest: nat, ghost pre: Code, ghost ps: seq<Re>, ghost r: Re)
      requires At(pre + SeqBody(ps) + Asm(r, 0)) && (emitting ==> program.Length < 0x8000)
      requires (chain < 0 <==> ps == []) && (emitting ==> latest == |pre| + |SeqBody(ps)|)
      requires emitting && ps != [] ==> chain == |pre| + LastAt(ps)
      modifies program
      ensures At(pre + SeqBody(ps + [r]))
    {
      hide Asm, Out, SeqAsm, Links, LastAt;
      SeqBodySnoc(ps, r);
      if chain >= 0 {
        if emitting { LinkPiece(pre, ps, r); }
        SetTail(chain, latest, pre + SeqBody(ps) + Asm(r, 0), |pre| + SeqTail(ps), SeqLen(ps) - SeqTail(ps), pre + SeqBody(ps + [r]));
      } else {
        assert pre + SeqBody(ps) + Asm(r, 0) == pre + SeqBody(ps + [r]);
      }
    }

    ghost predicate CompiledBranch(a: Parsed<seq<Re>>, ok: bool, ret: nat, flags: Flags, start: nat, out: Code, measured: nat)
      reads this`parse, this`npar, this`emitting, this`code, this`size, this`program, program
    {
      && ok == a.Accept?
      && (ok ==> ret == start && parse == a.pos && npar == a.npar && flags == Flags(SeqWidth(a.value), false, SeqStarStart(a.value))
                 && Emitted(out, measured, Node(BRANCH, 0) + SeqAsm(a.value, 0)))
      && (!emitting ==> code == start)
    }

    ghost predicate CompiledAlts(paren: bool, no: nat, a: Parsed<seq<Branch>>, ok: bool, ret: nat, flags: Flags, start: nat,
                                 out: Code, measured: nat)
      reads this`parse, this`npar, this`emitting, this`code, this`size, this`program, program
    {
      && ok == a.Accept?
      && (ok ==> ret == start && parse == a.pos && npar == a.npar && flags == Flags(AltsWidth(a.value), false, AltsStarStart(a.value))
                 && Emitted(out, measured, Whole(paren, no, a.value)))
      && (!emitting ==> code == start)
    }

    /** The last alternative led on to the code at val, which has just been emitted. */
    method Join(ret: nat, val: nat, ghost pre: Code, paren: bool, ghost no: nat, ghost alts: seq<Branch>, ghost b: Code)
      requires At(Open(pre, paren, no, alts) + b) && alts != [] && |b| >= 3
      requires emitting ==> ret == |pre| && val == |Open(pre, paren, no, alts)| && program.Length < 0x8000
      modifies program
      ensures At(Joined(pre, paren, no, alts, 0) + b)
    {
      hide AltsCode, Out, Links, LastBranch;
      if emitting { LinkAlternative(pre, paren, no, alts, b); }
      SetTail(ret, val, Open(pre, paren, no, alts) + b, |pre| + |Front(paren, no)| + LastBranch(alts), AltsLen(alts) - LastBranch(alts),
              Joined(pre, paren, no, alts, 0) + b);
    }

    /** The ends of all the alternatives hooked to the closing node. */
    method HookBranches(ret: nat, ender: nat, ghost pre: Code, paren: bool, ghost no: nat, ghost alts: seq<Branch>, ghost end: Byte)
      requires At(Joined(pre, paren, no, alts, 0) + Node(end, 0)) && alts != [] && end != BRANCH && end != BACK
      requires emitting ==> ret == |pre| && ender == |Open(pre, paren, no, alts)| && program.Length < 0x8000
      modifies program
      ensures At(Joined(pre, paren, no, alts, |alts|) + Node(end, 0))
    {
      if !emitting { return; }
      hide AltsCode, Out, Links, Chain, Node, Joined, Front, SlotAt;
      var br: int := ret;
      ghost var k := 0;
      while br >= 0
        invariant Walk(pre, paren, no, alts, k, br) && At(Joined(pre, paren, no, alts, k) + Node(end, 0))
        decreases if br < 0 then 0 else 1 + |pre| + 6 + AltsLen(alts) - br
      {
        ghost var c := Joined(pre, paren, no, alts, k) + Node(end, 0);
        ghost var t, off, d;
        k, t, off, d := WalkStep(pre, paren, no, alts, k, br, end);
        SetOperandTail(br, ender, c, t, off, d);
        NextAt(d, br);
        br := RegNext(program, br);
      }
    }

    // ------------------------------------------- the recursive descent itself

    /** A run of ordinary characters: all of them, but the last one when that is repeated. */
    method Ordinary() returns (ret: nat, simple: bool)
      requires parse < |exp| && !IsMeta(exp[parse]) && Room(4 + LitLength(exp, parse))
      modifies this`parse, this`code, this`size, program
      ensures LitLength(exp, old(parse)) > 0 && parse == old(parse) + LitLength(exp, old(parse))
      ensures ret == old(code) && (!emitting ==> code == old(code)) && simple == (LitLength(exp, old(parse)) == 1)
      ensures Emitted(old(Out()), old(size), Asm(Lit(exp[old(parse)..parse]), 0))
    {
      hide Asm, Out;
      var len := Run(exp, parse);
      var ender := CharAt(exp, parse + len);
      if len > 1 && IsRep(ender) { len := len - 1; }
      simple := len == 1;
      ret := Literal(len);
    }

    /** An item that is a node without an operand. */
    method Bare(op: Byte, ghost r: Re) returns (ret: nat)
      requires Room(3) && ((op == BOL && r == Bol) || (op == EOL && r == Eol) || (op == ANY && r == Any))
      modifies this`code, this`size, program
      ensures ret == old(code) && Emitted(old(Out()), old(size), Asm(r, 0)) && (!emitting ==> code == old(code))
    {
      hide Node, Asm, Out;
      PlainNodes();
      ret := EmitNode(op);
    }

    /** The alternatives of a group, from after its opening parenthesis. */
    method Parenthesis() returns (ok: bool, ret: nat, flags: Flags)
      requires npar >= 1 && parse <= |exp| && Fits(ParseGroup(exp, parse, npar))
      modifies this`parse, this`npar, this`code, this`size, program
      ensures Compiled(old(ParseGroup(exp, parse, npar)), ok, ret, flags, old(code), old(Out()), old(size))
      decreases |exp| - parse, 6
    {
      hide Asm, Out, ParseReg, Node, Whole, Emitted, AltsWidth, AltsStarStart;
      ghost var alts := ParseReg(exp, parse, npar, true);
      if alts.Accept? { WholeGroup(npar, alts.value); }
      ok, ret, flags := Expression(true);
    }

    /** regatom */
    method Atom() returns (ok: bool, ret: nat, flags: Flags)
      requires npar >= 1 && parse <= |exp| && Fits(ParseAtom(exp, parse, npar))
      modifies this`parse, this`npar, this`code, this`size, program
      ensures Compiled(old(ParseAtom(exp, parse, npar)), ok, ret, flags, old(code), old(Out()), old(size))
      decreases |exp| - parse, 0
    {
      hide Asm, Out, ParseGroup, ParseBracket, Node, LitLength, Emitted;
      var c := CharAt(exp, parse);
      parse := parse + 1;
      ok, ret, flags := false, 0, Flags(false, false, false);
      if c == CARET {
        ret := Bare(BOL, Bol);
        ok := true;
      } else if c == DOLLAR {
        ret := Bare(EOL, Eol);
        ok := true;
      } else if c == DOT {
        ret := Bare(ANY, Any);
        ok, flags := true, Flags(true, true, false);
      } else if c == LBRACKET {
        ok, ret, flags := Bracket();
      } else if c == LPAREN {
        ok, ret, flags := Parenthesis();
      } else if c == 0 || c == BAR || c == RPAREN || IsRep(c) {
      } else if c == BACKSLASH {
        if CharAt(exp, parse) != 0 {
          ret := Literal(1);
          assert exp[parse - 1..parse] == [exp[parse - 1]];
          ok, flags := true, Flags(true, true, false);
        }
      } else {
        parse := parse - 1;
        var simple;
        ret, simple := Ordinary();
        ok, flags := true, Flags(true, simple, false);
      }
    }

    /** regpiece */
    method Piece() returns (ok: bool, ret: nat, flags: Flags)
      requires npar >= 1 && parse <= |exp| && Fits(ParsePiece(exp, parse, npar))
      modifies this`parse, this`npar, this`code, this`size, program
      ensures Compiled(old(ParsePiece(exp, parse, npar)), ok, ret, flags, old(code), old(Out()), old(size))
      decreases |exp| - parse, 1
    {
      hide Asm, Out, ParseAtom;
      ghost var out, atom := Out(), ParseAtom(exp, parse, npar);
      ok, ret, flags := Atom();
      if ok {
        var op := CharAt(exp, parse);
        if IsRep(op) {
          if !flags.width && op != QUESTION {
            ok := false;
          } else {
            Repetition(op, ret, flags.simple, out, atom.value);
            flags := Flags(op == PLUS_SIGN, false, op != QUESTION);
            parse := parse + 1;
            ok := !IsRep(CharAt(exp, parse));
          }
        }
      }
    }

    /** regbranch */
    method Alternative() returns (ok: bool, ret: nat, flags: Flags)
      requires npar >= 1 && parse <= |exp|
      requires emitting ==> ParseBranch(exp, parse, npar, []).Accept?
      requires emitting ==> code + 3 + SeqLen(ParseBranch(exp, parse, npar, []).value) <= program.Length < 0x8000
      modifies this`parse, this`npar, this`code, this`size, program
      ensures CompiledBranch(old(ParseBranch(exp, parse, npar, [])), ok, ret, flags, old(code), old(Out()), old(size))
      decreases |exp| - parse, 2
    {
      hide Asm, Out, ParseBranch, ParsePiece, SeqAsm, SeqBody, LastAt, SeqWidth, SeqStarStart, SeqLen, Node;
      SeqBodyWhole([]);
      ghost var goal := ParseBranch(exp, parse, npar, []);
      ghost var pre, measured, ps: seq<Re> := Out() + Node(BRANCH, 0), size + 3, [];
      ret := EmitNode(BRANCH);
      ok, flags := true, Flags(false, false, false);
      var chain: int := -1;
      while ok && !AtBranchEnd(exp, parse)
        invariant ok ==> npar >= 1 && old(parse) <= parse <= |exp| && ParseBranch(exp, parse, npar, ps) == goal
        invariant ok ==> At(pre + SeqBody(ps)) && (!emitting ==> size == measured + |SeqBody(ps)|)
        invariant ok ==> flags == Flags(SeqWidth(ps), false, SeqStarStart(ps))
        invariant !ok ==> goal.Reject?
        invariant emitting ==> goal.Accept? && |pre| + SeqLen(goal.value) <= program.Length < 0x8000
        invariant chain < 0 <==> ps == []
        invariant emitting && ps != [] ==> chain == |pre| + LastAt(ps)
        invariant !emitting ==> code == old(code)
        decreases ok, |exp| - parse
      {
        BranchUnfold(exp, parse, npar, ps);
        ghost var piece := ParsePiece(exp, parse, npar);
        if emitting { PieceFits(exp, parse, npar, ps); }
        var latest, more;
        ok, latest, more := Piece();
        if ok {
          Append(chain, latest, pre, ps, piece.value);
          flags := Flags(flags.width || more.width, false, if chain < 0 then more.spstart else flags.spstart);
          chain := latest;
          SeqBodySnoc(ps, piece.value);
          ps := ps + [piece.value];
        }
      }
      if ok {
        BranchUnfold(exp, parse, npar, ps);
        SeqBodyWhole(ps);
        if chain < 0 {
          var nothing := EmitNode(NOTHING);
        }
        assert emitting ==> Out() == old(Out()) + (Node(BRANCH, 0) + SeqAsm(ps, 0));
      }
    }

    /** What is parsed of some alternatives so far, after pre and the opening node. */
    ghost predicate Reading(pre: Code, paren: bool, no: nat, alts: seq<Branch>, flags: Flags, ret: nat, start: nat, measured: nat)
      reads this`emitting, this`code, this`size, this`program, program
    {
      && At(Open(pre, paren, no, alts)) && alts != []
      && flags == Flags(AltsWidth(alts), false, AltsStarStart(alts))
      && (emitting ==> ret == |pre| == start && program.Length < 0x8000)
      && (!emitting ==> ret == code == start && size == measured + |Front(paren, no)| + AltsLen(alts))
    }

    /** The first alternative: the opening node leads to it. */
    method First(ret: nat, br: nat, ghost pre: Code, paren: bool, ghost no: nat, ghost b: Branch)
      requires At(pre + (if paren then Node(GroupOp(OPEN, no), 0) else []) + (Node(BRANCH, 0) + SeqAsm(b.ps, 0)))
      requires emitting ==> ret == |pre| && br == |pre| + |Front(paren, no)| && program.Length < 0x8000
      modifies program
      ensures At(Open(pre, paren, no, [b]))
    {
      hide SeqAsm, Out, Node, Links, AltsCode, Front;
      if paren {
        if emitting { OpenFirst(pre, no, b); }
        SetTail(ret, br, pre + Node(GroupOp(OPEN, no), 0) + (Node(BRANCH, 0) + SeqAsm(b.ps, 0)), |pre|, 3, Open(pre, true, no, [b]));
      } else {
        OpenOnly(pre, no, b);
      }
    }

    /** The alternatives after the first one, which are led to from it one after the other. */
    method MoreAlternatives(ret: nat, had: Flags, paren: bool, ghost pre: Code, ghost no: nat, ghost b: Branch, ghost start: nat,
                            ghost measured: nat)
      returns (ok: bool, flags: Flags, ghost alts: seq<Branch>)
      requires npar >= 1 && parse <= |exp|
      requires Reading(pre, paren, no, [b], had, ret, start, measured)
      requires emitting ==> Rest(exp, parse, npar, [b]).Accept?
      requires emitting ==> |pre| + |Front(paren, no)| + AltsLen(Rest(exp, parse, npar, [b]).value) <= program.Length
      modifies this`parse, this`npar, this`code, this`size, program
      ensures ok == old(Rest(exp, parse, npar, [b])).Accept?
      ensures ok ==> Accept(alts, parse, npar) == old(Rest(exp, parse, npar, [b]))
      ensures ok ==> Reading(pre, paren, no, alts, flags, ret, start, measured)
      ensures !emitting ==> code == old(code)
      decreases |exp| - parse, 3
    {
      hide SeqAsm, Out, Node, AltsCode, Front, ParseBranch, ParseAlts, AltsWidth, AltsStarStart, SeqLen, AltsLen, Open;
      ghost var goal := Rest(exp, parse, npar, [b]);
      ok, flags, alts := true, had, [b];
      while ok && CharAt(exp, parse) == BAR
        invariant ok ==> npar >= 1 && old(parse) <= parse <= |exp| && Rest(exp, parse, npar, alts) == goal
        invariant ok ==> Reading(pre, paren, no, alts, flags, ret, start, measured)
        invariant !ok ==> goal.Reject?
        invariant emitting ==> goal.Accept? && |pre| + |Front(paren, no)| + AltsLen(goal.value) <= program.Length
        invariant !emitting ==> code == old(code)
        decreases ok, |exp| - parse
      {
        parse := parse + 1;
        AltsUnfold(exp, parse, npar, alts);
        if emitting { BranchFits(exp, parse, npar, alts); }
        ghost var next := ParseBranch(exp, parse, npar, []);
        var br, more;
        ok, br, more := Alternative();
        if ok {
          Join(ret, br, pre, paren, no, alts, Node(BRANCH, 0) + SeqAsm(next.value, 0));
          flags := Flags(flags.width && more.width, false, flags.spstart || more.spstart);
          OpenMore(pre, paren, no, alts, Branch(next.value));
          AltsFlagsSnoc(alts, Branch(next.value));
          AltsLenSnoc(alts, Branch(next.value));
          alts := alts + [Branch(next.value)];
        }
      }
    }

    /** The closing node, with the ends of all alternatives tied to it. */
    method Close(ret: nat, parno: nat, flags: Flags, ghost pre: Code, paren: bool, ghost alts: seq<Branch>, ghost start: nat,
                 ghost measured: nat)
      requires (paren ==> 1 <= parno < NSUBEXP) && Reading(pre, paren, parno, alts, flags, ret, start, measured) && Room(3)
      modifies this`code, this`size, program
      ensures Emitted(pre, measured, Whole(paren, parno, alts)) && (!emitting ==> code == old(code))
    {
      hide SeqAsm, Out, Node, AltsCode, Front, AltsWidth, AltsStarStart;
      ghost var end := if paren then GroupOp(CLOSE, parno) else END;
      var ender := EmitNode(if paren then CLOSE + parno else END);
      Join(ret, ender, pre, paren, parno, alts, Node(end, 0));
      HookBranches(ret, ender, pre, paren, parno, alts, end);
      assert Joined(pre, paren, parno, alts, |alts|) + Node(end, 0) == pre + Whole(paren, parno, alts);
    }

    /** What comes after the first alternative, to the end of the expression. */
    method Finish(ret: nat, parno: nat, had: Flags, paren: bool, ghost pre: Code, ghost b: Branch, ghost start: nat, ghost measured: nat)
      returns (ok: bool, flags: Flags)
      requires npar >= 1 && parse <= |exp| && (paren ==> 1 <= parno < NSUBEXP)
      requires Reading(pre, paren, parno, [b], had, ret, start, measured)
      requires emitting ==> Rest(exp, parse, npar, [b]).Accept?
      requires emitting ==> |pre| + |Whole(paren, parno, Rest(exp, parse, npar, [b]).value)| <= program.Length
      modifies this`parse, this`npar, this`code, this`size, program
      ensures ok == (var a := old(Rest(exp, parse, npar, [b])); a.Accept? && CharAt(exp, a.pos) == if paren then RPAREN else 0)
      ensures ok ==> var a := old(Rest(exp, parse, npar, [b]));
                     && parse == (if paren then a.pos + 1 else a.pos) && npar == a.npar
                     && flags == Flags(AltsWidth(a.value), false, AltsStarStart(a.value))
                     && Emitted(pre, measured, Whole(paren, parno, a.value)) && (emitting ==> ret == start)
      ensures !emitting ==> code == old(code)
      decreases |exp| - parse, 4
    {
      hide Out, AltsLen, Front, AltsWidth, AltsStarStart, Rest, Open, Emitted, SeqAsm, AltsCode, Node;
      ghost var a := Rest(exp, parse, npar, [b]);
      ghost var alts;
      ok, flags, alts := MoreAlternatives(ret, had, paren, pre, parno, b, start, measured);
      if ok {
        Close(ret, parno, flags, pre, paren, alts, start, measured);
        if paren {
          ok := CharAt(exp, parse) == RPAREN;
          parse := parse + 1;
        } else {
          ok := CharAt(exp, parse) == 0;
        }
      }
    }

    /** reg */
    method Expression(paren: bool) returns (ok: bool, ret: nat, flags: Flags)
      requires npar >= 1 && parse <= |exp|
      requires emitting ==> ParseReg(exp, parse, npar, paren).Accept?
      requires emitting ==> code + |Whole(paren, npar, ParseReg(exp, parse, npar, paren).value)| <= program.Length < 0x8000
      modifies this`parse, this`npar, this`code, this`size, program
      ensures CompiledAlts(paren, old(npar), old(ParseReg(exp, parse, npar, paren)), ok, ret, flags, old(code), old(Out()), old(size))
      decreases |exp| - parse, 5
    {
      hide SeqAsm, Out, Node, AltsCode, Front, ParseBranch, ParseAlts, AltsWidth, AltsStarStart, SeqLen, AltsLen, Open, Whole, Joined;
      hide ParseReg, Rest, SeqWidth, SeqStarStart, Links;
      ghost var pre := Out();
      ok, ret, flags := false, code, Flags(false, false, false);
      if !paren || npar < NSUBEXP {
        ExpressionFits(exp, parse, npar, paren);
        var parno := npar;
        if paren {
          npar := npar + 1;
          ret := EmitNode(OPEN + parno);
        }
        ghost var first := ParseBranch(exp, parse, npar, []);
        var br;
        ok, br, flags := Alternative();
        if ok {
          First(ret, br, pre, paren, parno, Branch(first.value));
          ok, flags := Finish(ret, parno, flags, paren, pre, Branch(first.value), old(code), old(size));
        }
      }
    }
  }
}
