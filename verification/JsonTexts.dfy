/** JSON texts as they are written, with blanks after any token, and the trees that they stand
    for: what the parser and the printer are to do, in characters. */
module JsonTexts {
  import opened Bytes
  import opened Json

  /** A blank, a tab, or one of the two characters that end lines. */
  predicate Blank(c: int) {
    c == ' ' as int || c == 9 || c == 13 || c == 10
  }

  predicate Gap(t: Str) {
    forall i :: 0 <= i < |t| ==> Blank(t[i])
  }

  // ---------------------------------------------------------------- strings

  /** A character of a string: as it is, a backslash and a letter or sign, or a backslash, u and
      four hexadecimal digits. */
  datatype Spot = Bare(c: Byte) | Escaped(c: Byte) | Unit(a: Byte, b: Byte, c: Byte, d: Byte)

  function SpotText(x: Spot): (t: Str)
    ensures t != []
  {
    match x
    case Bare(c) => [c]
    case Escaped(c) => ['\\' as int, c]
    case Unit(a, b, c, d) => ['\\' as int, 'u' as int, a, b, c, d]
  }

  /** A hexadecimal digit of either case, and its value. */
  predicate IsHex(c: int) {
    '0' as int <= c <= '9' as int || 'a' as int <= c <= 'f' as int || 'A' as int <= c <= 'F' as int
  }

  function HexOf(c: int): (d: nat)
    requires IsHex(c)
    ensures d < 16
  {
    if c <= '9' as int then c - '0' as int else if c <= 'F' as int then c - 'A' as int + 10 else c - 'a' as int + 10
  }

  predicate SpotOk(x: Spot) {
    match x
    case Bare(c) => c >= 0x20 && c != '"' as int && c != '\\' as int
    case Escaped(c) => c in {'"' as int, '\\' as int, '/' as int, 'b' as int, 'f' as int, 'n' as int, 'r' as int, 't' as int}
    case Unit(a, b, c, d) => IsHex(a) && IsHex(b) && IsHex(c) && IsHex(d)
  }

  /** Backspace, form feed, the ends of lines, the tab and UTF-8. */
  function SpotValue(x: Spot): Str
    requires SpotOk(x)
  {
    match x
    case Bare(c) => [c]
    case Escaped(c) =>
      [if c == 'b' as int then 8 else if c == 'f' as int then 12 else if c == 'n' as int then 10
       else if c == 'r' as int then 13 else if c == 't' as int then 9 else c]
    case Unit(a, b, c, d) =>
      var v := 4096 * HexOf(a) + 256 * HexOf(b) + 16 * HexOf(c) + HexOf(d);
      if v < 0x80 then [v] else if v < 0x800 then [0xC0 + v / 64, 0x80 + v % 64]
      else [0xE0 + v / 4096, 0x80 + v / 64 % 64, 0x80 + v % 64]
  }

  predicate SpotsOk(xs: seq<Spot>) {
    forall i :: 0 <= i < |xs| ==> SpotOk(xs[i])
  }

  /** How a string is written between its quotes, and what it is. */
  function Spelling(xs: seq<Spot>): Str {
    if xs == [] then [] else SpotText(xs[0]) + Spelling(xs[1..])
  }

  function Spelled(xs: seq<Spot>): Str
    requires SpotsOk(xs)
  {
    if xs == [] then [] else SpotValue(xs[0]) + Spelled(xs[1..])
  }

  // ---------------------------------------------------------------- values

  /** A value with the blanks behind it, and behind the tokens in it; a box is an object or an
      array. */
  datatype Doc =
    | NullDoc(gap: Str)
    | BoolDoc(truth: bool, gap: Str)
    | NumberDoc(number: Str, gap: Str)
    | StringDoc(xs: seq<Spot>, gap: Str)
    | BoxDoc(isObject: bool, inner: Str, items: seq<Item>, gap: Str)

  /** A member; the label and the colon are those of a member of an object, the comma is there
      when another member follows. */
  datatype Item = Item(title: seq<Spot>, named: Str, colon: Str, value: Doc, comma: Str)

  /** Ordinary numbers begin with a digit or a minus sign; they go on up to a blank, a comma or a
      closing bracket. */
  predicate NumberOk(t: Str) {
    && t != [] && (t[0] == '-' as int || '0' as int <= t[0] <= '9' as int)
    && forall i :: 0 <= i < |t| ==> !Blank(t[i]) && t[i] != ',' as int && t[i] != ']' as int && t[i] != '}' as int
  }

  /** Names are not empty: an empty one would be taken for a missing one. */
  predicate DocOk(d: Doc)
    decreases d
  {
    match d
    case NullDoc(gap) => Gap(gap)
    case BoolDoc(_, gap) => Gap(gap)
    case NumberDoc(t, gap) => NumberOk(t) && Gap(gap)
    case StringDoc(xs, gap) => SpotsOk(xs) && Gap(gap)
    case BoxDoc(isObject, inner, items, gap) => Gap(inner) && Gap(gap) && forall i :: 0 <= i < |items| ==> ItemOk(isObject, items[i])
  }

  predicate ItemOk(isObject: bool, it: Item)
    decreases it
  {
    && DocOk(it.value) && Gap(it.comma)
    && (isObject ==> SpotsOk(it.title) && Spelled(it.title) != [] && Gap(it.named) && Gap(it.colon))
  }

  const NULL_WORD: Str := ['n' as int, 'u' as int, 'l' as int, 'l' as int]
  const TRUE_WORD: Str := ['t' as int, 'r' as int, 'u' as int, 'e' as int]
  const FALSE_WORD: Str := ['f' as int, 'a' as int, 'l' as int, 's' as int, 'e' as int]

  /** The text of a value. */
  function DocText(d: Doc): Str
    decreases d, 1
  {
    match d
    case NullDoc(gap) => NULL_WORD + gap
    case BoolDoc(b, gap) => (if b then TRUE_WORD else FALSE_WORD) + gap
    case NumberDoc(t, gap) => t + gap
    case StringDoc(xs, gap) => ['"' as int] + Spelling(xs) + ['"' as int] + gap
    case BoxDoc(isObject, inner, items, gap) =>
      [if isObject then '{' as int else '[' as int] + inner + ItemsText(isObject, items) + [if isObject then '}' as int else ']' as int] + gap
  }

  function ItemsText(isObject: bool, items: seq<Item>): Str
    decreases items, 0
  {
    if items == [] then []
    else LabelText(isObject, items[0]) + DocText(items[0].value)
         + if |items| == 1 then [] else [',' as int] + items[0].comma + ItemsText(isObject, items[1..])
  }

  function LabelText(isObject: bool, it: Item): Str {
    if isObject then ['"' as int] + Spelling(it.title) + ['"' as int] + it.named + [':' as int] + it.colon else []
  }

  /** The tree that a value stands for, under a name. */
  function DocTree(d: Doc, name: Str): Json
    requires DocOk(d)
    decreases d, 1
  {
    match d
    case NullDoc(_) => Json(Null, name, [], [])
    case BoolDoc(b, _) => Json(Bool, name, if b then TRUE_WORD else FALSE_WORD, [])
    case NumberDoc(t, _) =>
      Json(if '.' as int in t || 'e' as int in t || 'E' as int in t then Float else Int, name, t, [])
    case StringDoc(xs, _) => Json(String, name, Spelled(xs), [])
    case BoxDoc(isObject, _, items, _) => Json(if isObject then Object else Array, name, [], ItemTrees(isObject, items, 0))
  }

  /** Members of objects have their labels for names, those of arrays their indexes. */
  function ItemTrees(isObject: bool, items: seq<Item>, k: nat): (kids: seq<Json>)
    requires forall i :: 0 <= i < |items| ==> ItemOk(isObject, items[i])
    ensures |kids| == |items|
    decreases items, 0
  {
    if items == [] then []
    else
      assert ItemOk(isObject, items[0]);
      [DocTree(items[0].value, if isObject then Spelled(items[0].title) else Decimal(k))] + ItemTrees(isObject, items[1..], k + 1)
  }

  // ----------------------------------------------------- unfinished texts

  /** What there is of the label of the next member. */
  datatype Start = NoLabel | Titled(title: seq<Spot>, named: Str) | Labelled(it: Item)

  /** A container that is not closed: its members so far, perhaps a comma behind them, and
      perhaps a label. */
  datatype Level = Level(isObject: bool, inner: Str, items: seq<Item>, comma: Option<Str>, start: Start)

  function StartText(x: Start): Str {
    match x
    case NoLabel => []
    case Titled(xs, named) => ['"' as int] + Spelling(xs) + ['"' as int] + named
    case Labelled(it) => LabelText(true, it)
  }

  predicate StartOk(x: Start) {
    match x
    case NoLabel => true
    case Titled(xs, named) => SpotsOk(xs) && Gap(named)
    case Labelled(it) => SpotsOk(it.title) && Gap(it.named) && Gap(it.colon)
  }

  function CommaText(comma: Option<Str>): Str {
    if comma.Some? then [',' as int] + comma.value else []
  }

  function LevelText(l: Level): Str {
    [if l.isObject then '{' as int else '[' as int] + l.inner + ItemsText(l.isObject, l.items) + CommaText(l.comma) + StartText(l.start)
  }

  predicate LevelOk(l: Level) {
    && Gap(l.inner) && (forall i :: 0 <= i < |l.items| ==> ItemOk(l.isObject, l.items[i]))
    && (l.comma.Some? ==> Gap(l.comma.value)) && StartOk(l.start) && (l.start.NoLabel? || l.isObject)
    && (Tight(l) ==> l.start.NoLabel?)
  }

  /** The last token is a number, which would go on with what is behind it. */
  predicate Tight(l: Level) {
    && l.items != [] && l.comma.None?
    && (var d := l.items[|l.items| - 1].value; d.NumberDoc? && d.gap == [])
  }

  /** Containers in each other, the innermost last. */
  function OpenText(levels: seq<Level>): Str {
    if levels == [] then [] else OpenText(levels[..|levels| - 1]) + LevelText(levels[|levels| - 1])
  }

  predicate OpenOk(levels: seq<Level>) {
    forall i :: 0 <= i < |levels| ==> LevelOk(levels[i]) && (i < |levels| - 1 ==> !Tight(levels[i]))
  }

  /** An index as a name is the number in decimal digits, and has no zero before it. */
  lemma {:induction false} DecimalMeans(n: nat)
    ensures NumberOf(Decimal(n)) == n && (n > 0 ==> Decimal(n)[0] != '0' as int)
  {
    if n >= 10 {
      DecimalMeans(n / 10);
      var t := Decimal(n);
      assert t[..|t| - 1] == Decimal(n / 10) && t[0] == Decimal(n / 10)[0];
    } else {
      assert Decimal(n) == ['0' as int + n] && Decimal(n)[..0] == [];
    }
  }

  function NumberOf(t: Str): int {
    if t == [] then 0 else 10 * NumberOf(t[..|t| - 1]) + t[|t| - 1] - '0' as int
  }
}
