/** JSON trees and how they are printed. */
module Json {
  import opened Bytes

  type Str = seq<Byte>

  datatype JsonType = Null | Object | Array | String | Int | Float | Bool

  /** A tree as a value: what is linked from the first child on are its children in order. */
  datatype Json = Json(kind: JsonType, name: Str, value: Str, kids: seq<Json>)

  const QUOTE := '"' as int
  const BACKSLASH := '\\' as int
  const COMMA := ',' as int
  const COLON := ':' as int
  const LBRACE := '{' as int
  const RBRACE := '}' as int
  const LBRACKET := '[' as int
  const RBRACKET := ']' as int
  const MINUS := '-' as int
  const DOT := '.' as int

  const NULL_TEXT: Str := ['n' as int, 'u' as int, 'l' as int, 'l' as int]
  const TRUE_TEXT: Str := ['t' as int, 'r' as int, 'u' as int, 'e' as int]
  const FALSE_TEXT: Str := ['f' as int, 'a' as int, 'l' as int, 's' as int, 'e' as int]

  predicate IsDecimalDigit(c: int) {
    '0' as int <= c <= '9' as int
  }

  /** bkStrNumeric */
  predicate Numeric(s: Str) {
    forall i :: 0 <= i < |s| ==> IsDecimalDigit(s[i]) || s[i] == DOT || s[i] == MINUS
  }

  /** %d of a number that is not negative */
  function Decimal(n: nat): (s: Str)
    ensures s != [] && forall i :: 0 <= i < |s| ==> IsDecimalDigit(s[i])
  {
    var last: Byte := '0' as int + n % 10;
    (if n < 10 then [] else Decimal(n / 10)) + [last]
  }

  /** A hexadecimal digit in lower case. */
  function HexDigit(d: nat): Byte
    requires d < 16
  {
    if d < 10 then '0' as int + d else 'a' as int + d - 10
  }

  /** One character of a string as it is printed. */
  function EscapeChar(c: Byte): (s: Str)
    ensures s != []
  {
    if c == 8 then [BACKSLASH, 'b' as int]
    else if c == 12 then [BACKSLASH, 'f' as int]
    else if c == 10 then [BACKSLASH, 'n' as int]
    else if c == 13 then [BACKSLASH, 'r' as int]
    else if c == 9 then [BACKSLASH, 't' as int]
    else if c == QUOTE then [BACKSLASH, QUOTE]
    else if c == BACKSLASH then [BACKSLASH, BACKSLASH]
    else if c < 32 then [BACKSLASH, 'u' as int, '0' as int, '0' as int, HexDigit(c / 16), HexDigit(c % 16)]
    else [c]
  }

  /** A string as it is printed, up to its first NUL. */
  function Escape(s: Str): Str {
    if s == [] || s[0] == 0 then [] else EscapeChar(s[0]) + Escape(s[1..])
  }

  /** bkJsonEscape */
  method EscapeString(value: Str) returns (rc: Str)
    ensures rc == Escape(value)
  {
    hide EscapeChar;
    rc := [];
    var i := 0;
    while i < |value| && value[i] != 0
      invariant 0 <= i <= |value| && rc + Escape(value[i..]) == Escape(value)
    {
      var piece := EscapeOne(value[i]);
      assert value[i..][1..] == value[i + 1..];
      Assoc(rc, piece, Escape(value[i + 1..]));
      rc := rc + piece;
      i := i + 1;
    }
  }

  /** The choice made for each character. */
  method EscapeOne(c: Byte) returns (rc: Str)
    ensures rc == EscapeChar(c)
  {
    if c == 8 { rc := [BACKSLASH, 'b' as int]; }
    else if c == 12 { rc := [BACKSLASH, 'f' as int]; }
    else if c == 10 { rc := [BACKSLASH, 'n' as int]; }
    else if c == 13 { rc := [BACKSLASH, 'r' as int]; }
    else if c == 9 { rc := [BACKSLASH, 't' as int]; }
    else if c == QUOTE { rc := [BACKSLASH, QUOTE]; }
    else if c == BACKSLASH { rc := [BACKSLASH, BACKSLASH]; }
    else if c < 32 { rc := [BACKSLASH, 'u' as int, '0' as int, '0' as int, HexDigit(c / 16), HexDigit(c % 16)]; }
    else { rc := [c]; }
  }

  // --------------------------------------------------------------- printing

  /** The name of a value before it; the members of an array have none if theirs are numbers. */
  function Label(v: Json, inArray: bool): Str {
    if v.name != [] && !(inArray && Numeric(v.name)) then [QUOTE] + v.name + [QUOTE, COLON] else []
  }

  function Body(v: Json): Str
    decreases v, 0
  {
    match v.kind
    case Null => NULL_TEXT
    case Object => [LBRACE] + Items(v.kids, false) + [RBRACE]
    case Array => [LBRACKET] + Items(v.kids, true) + [RBRACKET]
    case String => [QUOTE] + Escape(v.value) + [QUOTE]
    case _ => v.value
  }

  function Text(v: Json, inArray: bool): Str
    decreases v, 1
  {
    Label(v, inArray) + Body(v)
  }

  function Items(kids: seq<Json>, inArray: bool): Str
    decreases kids, 0
  {
    if kids == [] then []
    else if |kids| == 1 then Text(kids[0], inArray)
    else Text(kids[0], inArray) + [COMMA] + Items(kids[1..], inArray)
  }

  /** bkJsonStringify */
  method Stringify(v: Json, inArray: bool) returns (rc: Str)
    ensures rc == Text(v, inArray)
    decreases v
  {
    rc := [];
    if v.name != [] && !(inArray && Numeric(v.name)) { rc := rc + ([QUOTE] + v.name + [QUOTE, COLON]); }
    assert rc == Label(v, inArray);
    match v.kind
    case Null => rc := rc + NULL_TEXT;
    case Object =>
      var items := StringifyKids(v, false);
      rc := rc + ([LBRACE] + items + [RBRACE]);
    case Array =>
      var items := StringifyKids(v, true);
      rc := rc + ([LBRACKET] + items + [RBRACKET]);
    case String =>
      var escaped := EscapeString(v.value);
      rc := rc + ([QUOTE] + escaped + [QUOTE]);
    case _ => rc := rc + v.value;
  }

  /** The members of a container with commas between them. */
  method StringifyKids(v: Json, inArray: bool) returns (rc: Str)
    ensures rc == Items(v.kids, inArray)
    decreases v, 0
  {
    ItemsNone(inArray);
    hide Items, Text, Label, Body;
    rc := [];
    var it := 0;
    assert v.kids[0..] == v.kids;
    assert [] + Items(v.kids, inArray) == Items(v.kids, inArray);
    while it < |v.kids|
      invariant 0 <= it <= |v.kids|
      invariant rc + Items(v.kids[it..], inArray) == Items(v.kids, inArray)
    {
      var text := Stringify(v.kids[it], inArray);
      ItemsStep(v.kids, it, inArray, rc);
      rc := rc + text;
      if it + 1 < |v.kids| { rc := rc + [COMMA]; }
      it := it + 1;
    }
    assert v.kids[it..] == [] && rc + [] == rc;
  }

  lemma ItemsNone(inArray: bool)
    ensures Items([], inArray) == []
  {
  }

  /** One more member after what has been printed of a list. */
  lemma ItemsStep(kids: seq<Json>, k: nat, inArray: bool, rc: Str)
    requires k < |kids|
    ensures rc + Items(kids[k..], inArray) ==
            (if k + 1 < |kids| then rc + Text(kids[k], inArray) + [COMMA] else rc + Text(kids[k], inArray))
            + Items(kids[k + 1..], inArray)
  {
    hide Text;
    var text, more := Text(kids[k], inArray), Items(kids[k + 1..], inArray);
    assert kids[k..][1..] == kids[k + 1..];
    if k + 1 < |kids| {
      Assoc(rc + text, [COMMA], more);
      Assoc(rc, text, [COMMA] + more);
      Assoc(text, [COMMA], more);
    } else {
      Assoc(rc, text, more);
    }
  }
}
