/** The iterative JSON parser, which keeps the containers that are open on a stack. */
module JsonParser {
  import opened Bytes
  import opened Json

  /** A container that is open, with the members it has so far. */
  datatype Frame = Frame(kind: JsonType, name: Str, kids: seq<Json>)

  /** The finished root, the name for the next value, and the open containers, the innermost
      last: the chain of parents. */
  datatype State = State(root: Option<Json>, name: Str, stack: seq<Frame>)

  /** Overrun: a number runs to the end of the text, and the program reads on behind it. */
  datatype Step = Fail | Overrun | Next(pos: nat, st: State)

  /** The byte at p; NUL ends the text. */
  function Peek(src: Str, p: nat): (c: Byte)
    ensures c != 0 ==> p < |src|
  {
    if p < |src| then src[p] else 0
  }

  predicate IsSpace(c: int) {
    c == 0x20 || c == 0x9 || c == 0xD || c == 0xA
  }

  function SkipSpace(src: Str, p: nat): (q: nat)
    ensures p <= q && (p <= |src| ==> q <= |src|)
    decreases |src| - p
  {
    if IsSpace(Peek(src, p)) then SkipSpace(src, p + 1) else p
  }

  // ---------------------------------------------------------------- tokens

  function HexValue(c: int): (d: int)
    ensures -1 <= d < 16
  {
    if '0' as int <= c <= '9' as int then c - '0' as int
    else if 'a' as int <= c <= 'f' as int then c - 'a' as int + 10
    else if 'A' as int <= c <= 'F' as int then c - 'A' as int + 10
    else -1
  }

  /** hatoui: the value of four hexadecimal digits, or -1. */
  function HexFour(src: Str, p: nat): (v: int)
    ensures -1 <= v < 0x1_0000 && (v >= 0 ==> p + 4 <= |src|)
  {
    var a, b, c, d := HexValue(Peek(src, p)), HexValue(Peek(src, p + 1)), HexValue(Peek(src, p + 2)), HexValue(Peek(src, p + 3));
    if a < 0 || b < 0 || c < 0 || d < 0 then -1 else ((a * 16 + b) * 16 + c) * 16 + d
  }

  /** A code point in UTF-8. */
  function Utf8(v: nat): Str
    requires v < 0x1_0000
  {
    if v <= 0x7F then [v]
    else if v <= 0x7FF then [0xC0 + v / 64, 0x80 + v % 64]
    else [0xE0 + v / 4096, 0x80 + v / 64 % 64, 0x80 + v % 64]
  }

  datatype Token = Bad | Token(val: Str, pos: nat)

  /** The character that a backslash and c stand for, -1 if there is none. */
  function Unescape(c: int): int {
    if c == QUOTE then QUOTE
    else if c == BACKSLASH then BACKSLASH
    else if c == '/' as int then '/' as int
    else if c == 'b' as int then 8
    else if c == 'f' as int then 12
    else if c == 'n' as int then 10
    else if c == 'r' as int then 13
    else if c == 't' as int then 9
    else -1
  }

  /** The rest of a string; val is what has been read of it. A NUL ends it too. */
  function ReadString(src: Str, p: nat, val: Str): (t: Token)
    ensures t.Token? ==> p <= t.pos && (p <= |src| ==> t.pos <= |src|)
    decreases |src| - p
  {
    var c := Peek(src, p);
    if c == 0 then Token(val, p)
    else if c < 0x20 then Bad
    else if c == BACKSLASH then
      var e := Peek(src, p + 1);
      if e == 'u' as int then
        var v := HexFour(src, p + 2);
        if v < 0 then Bad else ReadString(src, p + 6, val + Utf8(v))
      else if Unescape(e) < 0 then Bad
      else ReadString(src, p + 2, val + [Unescape(e)])
    else if c == QUOTE then Token(val, p + 1)
    else ReadString(src, p + 1, val + [c])
  }

  predicate EndsNumber(c: int) {
    IsSpace(c) || c == COMMA || c == RBRACKET || c == RBRACE
  }

  /** Where a number ends: at a space, a comma or a closing bracket. */
  function NumberEnd(src: Str, p: nat): (q: nat)
    requires p <= |src|
    ensures p <= q <= |src| && (q < |src| ==> EndsNumber(src[q])) && forall i :: p <= i < q ==> !EndsNumber(src[i])
    decreases |src| - p
  {
    if p == |src| || EndsNumber(src[p]) then p else NumberEnd(src, p + 1)
  }

  predicate IsFloat(s: Str) {
    exists i :: 0 <= i < |s| && (s[i] == DOT || s[i] == 'e' as int || s[i] == 'E' as int)
  }

  predicate StartsNumber(c: int) {
    c == MINUS || IsDecimalDigit(c)
  }

  // ----------------------------------------------------------- the machine

  function Top(st: State): Frame
    requires st.stack != []
  {
    st.stack[|st.stack| - 1]
  }

  /** bkJsonAppend: a member of an array without a name gets its index. */
  function Append(f: Frame, v: Json): Frame {
    f.(kids := f.kids + [if f.kind == Array && v.name == [] then v.(name := Decimal(|f.kids|)) else v])
  }

  function WithTop(st: State, f: Frame): State
    requires st.stack != []
  {
    st.(stack := st.stack[..|st.stack| - 1] + [f])
  }

  /** A value that is no container, under the pending name. */
  function Leaf(st: State, kind: JsonType, value: Str): State
    requires st.stack != []
  {
    WithTop(st, Append(Top(st), Json(kind, st.name, value, []))).(name := [])
  }

  function Open(st: State, kind: JsonType): State {
    st.(name := [], stack := st.stack + [Frame(kind, st.name, [])])
  }

  /** The innermost container is finished: it is a member of the next one, or the root. */
  function Close(st: State): State
    requires st.stack != []
  {
    var f := Top(st);
    var v := Json(f.kind, f.name, [], f.kids);
    var outer := st.(stack := st.stack[..|st.stack| - 1]);
    if outer.stack == [] then outer.(root := Some(v)) else WithTop(outer, Append(Top(outer), v))
  }

  /** One token. */
  function OneStep(src: Str, p: nat, st: State): (s: Step)
    requires Peek(src, p) != 0
    ensures s.Next? ==> p < s.pos <= |src|
  {
    var c := src[p];
    if c == LBRACE || c == LBRACKET then
      if st.stack == [] && st.root.Some? then Fail
      else Next(p + 1, Open(st, if c == LBRACE then Object else Array))
    else if c == RBRACE || c == RBRACKET then
      if st.stack == [] || Top(st).kind != (if c == RBRACE then Object else Array) then Fail
      else Next(p + 1, Close(st))
    else if c == COLON then
      if st.stack == [] || Top(st).kind != Object then Fail else Next(p + 1, st)
    else if st.stack == [] then Fail
    else if c == COMMA then Next(p + 1, st)
    else if c == QUOTE then
      var t := ReadString(src, p + 1, []);
      if t.Bad? then Fail
      else if st.name == [] && Top(st).kind == Object then Next(t.pos, st.(name := t.val))
      else Next(t.pos, Leaf(st, String, t.val))
    else if Reads(src, p, NULL_TEXT) then Next(p + 4, Leaf(st, Null, []))
    else if Reads(src, p, TRUE_TEXT) then Next(p + 4, Leaf(st, Bool, TRUE_TEXT))
    else if Reads(src, p, FALSE_TEXT) then Next(p + 5, Leaf(st, Bool, FALSE_TEXT))
    else if StartsNumber(c) then
      var q := NumberEnd(src, p + 1);
      if q == |src| then Overrun
      else Next(q, Leaf(st, if IsFloat(src[p..q]) then Float else Int, src[p..q]))
    else Fail
  }

  /** All tokens from p on, as far as the size goes when it is not negative. */
  function Run(src: Str, size: int, p: nat, st: State): (s: Step)
    decreases |src| - p
  {
    if Peek(src, p) == 0 || (size >= 0 && size <= p) then Next(p, st)
    else
      var s := OneStep(src, p, st);
      if !s.Next? then s else Run(src, size, SkipSpace(src, s.pos), s.st)
  }

  const START := State(None, [], [])

  /** What parsing a text gives: the program returns no tree both for errors and for no text. */
  datatype Result = NoTree | Tree(v: Json) | Unknown

  function Parsed(src: Str, size: int): Result {
    var s := Run(src, size, 0, START);
    if s.Overrun? then Unknown
    else if s.Fail? || s.st.stack != [] || s.st.root.None? then NoTree
    else Tree(s.st.root.value)
  }

  // --------------------------------------------------------------- parsing

  method SkipSpaces(src: Str, start: nat) returns (it: nat)
    ensures it == SkipSpace(src, start)
  {
    it := start;
    while IsSpace(Peek(src, it))
      invariant SkipSpace(src, it) == SkipSpace(src, start)
      decreases |src| - it
    {
      it := it + 1;
    }
  }

  method ParseHex(src: Str, first: nat) returns (ok: bool, codepoint: nat)
    ensures ok <==> HexFour(src, first) >= 0
    ensures ok ==> codepoint == HexFour(src, first)
  {
    var result, k := 0, 0;
    ok := true;
    ghost var a, b, c, d := HexValue(Peek(src, first)), HexValue(Peek(src, first + 1)), HexValue(Peek(src, first + 2)), HexValue(Peek(src, first + 3));
    while k < 4 && ok
      invariant 0 <= k <= 4 && (ok ==> 0 <= result)
      invariant ok ==> (k >= 1 ==> a >= 0) && (k >= 2 ==> b >= 0) && (k >= 3 ==> c >= 0) && (k >= 4 ==> d >= 0)
      invariant ok ==> result == if k == 0 then 0 else if k == 1 then a else if k == 2 then a * 16 + b
                                 else if k == 3 then (a * 16 + b) * 16 + c else ((a * 16 + b) * 16 + c) * 16 + d
      invariant !ok ==> HexFour(src, first) < 0
      decreases 4 - k, ok
    {
      var digit := HexValue(Peek(src, first + k));
      if digit < 0 {
        ok := false;
      } else {
        result := 16 * result + digit;
        k := k + 1;
      }
    }
    codepoint := if ok then result else 0;
  }

  method ParseString(src: Str, start: nat) returns (ok: bool, val: Str, it: nat)
    ensures ok <==> ReadString(src, start, []).Token?
    ensures ok ==> Token(val, it) == ReadString(src, start, [])
  {
    hide HexFour;
    it, val, ok := start, [], true;
    ghost var goal := ReadString(src, start, []);
    var closed := false;
    while ok && !closed && Peek(src, it) != 0
      invariant ok && !closed ==> ReadString(src, it, val) == goal
      invariant ok && closed ==> goal == Token(val, it)
      invariant !ok ==> goal == Bad
      decreases ok, !closed, |src| - it
    {
      var c := Peek(src, it);
      if c < 0x20 {
        ok := false;
      } else if c == BACKSLASH {
        var e := Peek(src, it + 1);
        if e == 'u' as int {
          var codepoint;
          ok, codepoint := ParseHex(src, it + 2);
          if ok {
            val := val + Utf8(codepoint);
            it := it + 6;
          }
        } else if Unescape(e) >= 0 {
          val := val + [Unescape(e)];
          it := it + 2;
        } else {
          ok := false;
        }
      } else if c == QUOTE {
        it := it + 1;
        closed := true;
      } else {
        val := val + [c];
        it := it + 1;
      }
    }
  }

  method ParseNumber(src: Str, start: nat) returns (kind: JsonType, val: Str, it: nat)
    requires start < |src| && StartsNumber(src[start])
    ensures it == NumberEnd(src, start + 1) && val == src[start..it]
    ensures kind == if IsFloat(val) then Float else Int
  {
    kind, val, it := Int, [], start;
    while it < |src| && !EndsNumber(src[it])
      invariant start <= it <= |src| && val == src[start..it]
      invariant NumberEnd(src, start) == NumberEnd(src, it)
      invariant kind == if IsFloat(val) then Float else Int
      decreases |src| - it
    {
      FloatSnoc(val, src[it]);
      if src[it] == DOT || src[it] == 'e' as int || src[it] == 'E' as int { kind := Float; }
      val := val + [src[it]];
      it := it + 1;
    }
  }

  lemma FloatSnoc(s: Str, c: Byte)
    ensures IsFloat(s + [c]) <==> IsFloat(s) || c == DOT || c == 'e' as int || c == 'E' as int
  {
    if IsFloat(s) {
      var i :| 0 <= i < |s| && (s[i] == DOT || s[i] == 'e' as int || s[i] == 'E' as int);
      assert (s + [c])[i] == s[i];
    }
    assert (s + [c])[|s|] == c;
  }

  /** bkJsonParse */
  method Parse(src: Str, size: int) returns (r: Result)
    ensures r == Parsed(src, size)
  {
    hide OneStep;
    var it, st := 0, START;
    while Peek(src, it) != 0 && (size < 0 || size > it)
      invariant Run(src, size, it, st) == Run(src, size, 0, START)
      decreases |src| - it
    {
      var s := ParseToken(src, it, st);
      match s
      case Fail => return NoTree;
      case Overrun => return Unknown;
      case Next(pos, next) =>
        it, st := pos, next;
        it := SkipSpaces(src, it);
    }
    r := if st.stack != [] || st.root.None? then NoTree else Tree(st.root.value);
  }

  /** One round of the parser. */
  method ParseToken(src: Str, it: nat, st: State) returns (s: Step)
    requires Peek(src, it) != 0
    ensures s == OneStep(src, it, st)
  {
    hide ReadString, NumberEnd, IsFloat, Decimal;
    var c := src[it];
    if c == LBRACE || c == LBRACKET {
      var kind := if c == LBRACE then Object else Array;
      if st.stack == [] && st.root.Some? { return Fail; }
      s := Next(it + 1, Open(st, kind));
    } else if c == RBRACE || c == RBRACKET {
      if st.stack == [] || Top(st).kind != (if c == RBRACE then Object else Array) { return Fail; }
      s := Next(it + 1, Close(st));
    } else if c == COLON {
      if st.stack == [] || Top(st).kind != Object { return Fail; }
      s := Next(it + 1, st);
    } else if st.stack == [] {
      s := Fail;
    } else if c == COMMA {
      s := Next(it + 1, st);
    } else if c == QUOTE {
      var ok, val, next := ParseString(src, it + 1);
      if !ok { return Fail; }
      if st.name == [] && Top(st).kind == Object {
        s := Next(next, st.(name := val));
      } else {
        s := Next(next, Leaf(st, String, val));
      }
    } else if Reads(src, it, NULL_TEXT) {
      s := Next(it + 4, Leaf(st, Null, []));
    } else if Reads(src, it, TRUE_TEXT) {
      s := Next(it + 4, Leaf(st, Bool, TRUE_TEXT));
    } else if Reads(src, it, FALSE_TEXT) {
      s := Next(it + 5, Leaf(st, Bool, FALSE_TEXT));
    } else if StartsNumber(c) {
      var kind, val, next := ParseNumber(src, it);
      if next == |src| { return Overrun; }
      s := Next(next, Leaf(st, kind, val));
    } else {
      s := Fail;
    }
  }
}
