/** What is printed is one of the texts of the grammar, the one without blanks, and parsing it
    rebuilds the tree. */
module JsonRoundTrip {
  import opened Bytes
  import opened Json
  import opened JsonTexts
  import opened JsonParser
  import opened JsonDocs

  // --------------------------------------------------- trees that come back

  /** A name that is printed as it is and read back: names are not escaped. */
  predicate GoodName(name: Str) {
    name != [] && forall i :: 0 <= i < |name| ==> name[i] >= 0x20 && name[i] != QUOTE && name[i] != BACKSLASH
  }

  /** A value that is no container. */
  predicate GoodLeaf(v: Json) {
    && v.kids == []
    && match v.kind
       case Null => v.value == []
       case Bool => v.value == TRUE_TEXT || v.value == FALSE_TEXT
       case String => forall i :: 0 <= i < |v.value| ==> v.value[i] != 0
       case Int => NumberOk(v.value) && !IsFloat(v.value)
       case Float => NumberOk(v.value) && IsFloat(v.value)
       case _ => false
  }

  predicate IsContainer(v: Json) {
    v.kind == Object || v.kind == Array
  }

  /** Digits, dots and minus signs only, or nothing. */
  predicate NumberName(name: Str) {
    forall i :: 0 <= i < |name| ==> '0' as int <= name[i] <= '9' as int || name[i] == '.' as int || name[i] == '-' as int
  }

  /** Members of objects have names, and members of arrays have none but numbers. */
  predicate Printable(v: Json)
    decreases v
  {
    if IsContainer(v) then
      && v.value == []
      && forall i :: 0 <= i < |v.kids| ==>
           Printable(v.kids[i]) && if v.kind == Object then GoodName(v.kids[i].name) else NumberName(v.kids[i].name)
    else GoodLeaf(v)
  }

  /** The tree with the members of arrays named by their indexes. */
  function Indexed(v: Json): (w: Json)
    ensures w.kind == v.kind && w.name == v.name && w.value == v.value && |w.kids| == |v.kids|
    decreases v, 0
  {
    v.(kids := IndexedKids(v.kids, v.kind == Array, 0))
  }

  function IndexedKids(kids: seq<Json>, inArray: bool, k: nat): (ws: seq<Json>)
    ensures |ws| == |kids|
    decreases kids, 1
  {
    if kids == [] then []
    else
      var w := Indexed(kids[0]);
      [if inArray then w.(name := Decimal(k)) else w] + IndexedKids(kids[1..], inArray, k + 1)
  }

  /** The members of arrays are named by their indexes. */
  predicate IsIndexed(v: Json)
    decreases v
  {
    forall i :: 0 <= i < |v.kids| ==> IsIndexed(v.kids[i]) && (v.kind == Array ==> v.kids[i].name == Decimal(i))
  }

  lemma {:induction false} IndexedSame(v: Json)
    requires IsIndexed(v)
    ensures Indexed(v) == v
    decreases v, 0
  {
    IndexedKidsSame(v.kids, v.kind == Array, 0);
  }

  lemma {:induction false} IndexedKidsSame(kids: seq<Json>, inArray: bool, k: nat)
    requires forall i :: 0 <= i < |kids| ==> IsIndexed(kids[i]) && (inArray ==> kids[i].name == Decimal(k + i))
    ensures IndexedKids(kids, inArray, k) == kids
    decreases kids, 1
  {
    hide Decimal, Indexed, IsIndexed;
    if kids != [] {
      assert IsIndexed(kids[0]) && (inArray ==> kids[0].name == Decimal(k + 0));
      IndexedSame(kids[0]);
      IndexedKidsSame(kids[1..], inArray, k + 1);
    }
  }

  // -------------------------------------------------------------- strings

  /** How a character of a string is printed. */
  function PrintedSpot(c: Byte): Spot {
    if c == 8 then Escaped('b' as int)
    else if c == 12 then Escaped('f' as int)
    else if c == 10 then Escaped('n' as int)
    else if c == 13 then Escaped('r' as int)
    else if c == 9 then Escaped('t' as int)
    else if c == '"' as int || c == '\\' as int then Escaped(c)
    else if c < 0x20 then Unit('0' as int, '0' as int, HexDigit(c / 16), HexDigit(c % 16))
    else Bare(c)
  }

  function PrintedSpots(s: Str): (xs: seq<Spot>)
    ensures |xs| == |s|
  {
    if s == [] then [] else [PrintedSpot(s[0])] + PrintedSpots(s[1..])
  }

  lemma SpotIsPrinted(c: Byte)
    requires c != 0
    ensures SpotText(PrintedSpot(c)) == EscapeChar(c) && SpotOk(PrintedSpot(c)) && SpotValue(PrintedSpot(c)) == [c]
  {
    if c < 0x20 && !(c in {8, 9, 10, 12, 13}) {
      HexDigitMeans(c / 16);
      HexDigitMeans(c % 16);
      assert HexOf('0' as int) == 0;
      hide HexOf, HexDigit;
      assert 16 * (c / 16) + c % 16 == c;
    }
  }

  lemma HexDigitMeans(d: nat)
    requires d < 16
    ensures IsHex(HexDigit(d)) && HexOf(HexDigit(d)) == d
  {
  }

  /** A printed string is spelled in this way, and is the string. */
  lemma {:induction false} PrintedString(s: Str)
    requires forall i :: 0 <= i < |s| ==> s[i] != 0
    ensures SpotsOk(PrintedSpots(s)) && Spelling(PrintedSpots(s)) == Escape(s) && Spelled(PrintedSpots(s)) == s
  {
    hide PrintedSpot, SpotText, SpotOk, SpotValue, EscapeChar;
    if s != [] {
      SpotIsPrinted(s[0]);
      PrintedString(s[1..]);
      assert s == [s[0]] + s[1..];
    }
  }

  lemma GoodCharPrinted(c: Byte)
    requires c >= 0x20 && c != QUOTE && c != BACKSLASH
    ensures var x := PrintedSpot(c); SpotText(x) == [c] && SpotOk(x) && SpotValue(x) == [c]
  {
  }

  /** A good name is printed as it is. */
  lemma {:induction false} GoodNamePrinted(name: Str)
    requires forall i :: 0 <= i < |name| ==> name[i] >= 0x20 && name[i] != QUOTE && name[i] != BACKSLASH
    ensures Spelling(PrintedSpots(name)) == name && SpotsOk(PrintedSpots(name)) && Spelled(PrintedSpots(name)) == name
  {
    hide PrintedSpot, SpotText, SpotOk, SpotValue;
    if name != [] {
      GoodCharPrinted(name[0]);
      GoodNamePrinted(name[1..]);
      assert name == [name[0]] + name[1..];
    }
  }

  // ---------------------------------------------------------------- trees

  /** The text of a tree that is printed, as one of the grammar. */
  function Printed(v: Json): Doc
    decreases v, 1
  {
    match v.kind
    case Null => NullDoc([])
    case Bool => BoolDoc(v.value == TRUE_TEXT, [])
    case String => StringDoc(PrintedSpots(v.value), [])
    case Object => BoxDoc(true, [], PrintedItems(v.kids), [])
    case Array => BoxDoc(false, [], PrintedItems(v.kids), [])
    case _ => NumberDoc(v.value, [])
  }

  function PrintedItems(kids: seq<Json>): (items: seq<Item>)
    ensures |items| == |kids|
    decreases kids, 0
  {
    if kids == [] then []
    else [Item(PrintedSpots(kids[0].name), [], [], Printed(kids[0]), [])] + PrintedItems(kids[1..])
  }

  lemma PrintedLeaf(v: Json)
    requires !IsContainer(v) && GoodLeaf(v)
    ensures DocOk(Printed(v)) && Body(v) == DocText(Printed(v)) && DocTree(Printed(v), v.name) == Indexed(v)
  {
    hide Escape, Spelling, PrintedSpots, IsFloat, Spelled, SpotsOk, NumberOk;
    if v.kind == String { PrintedString(v.value); }
    FloatMeans(v.value);
  }

  /** The printed text is the text of the grammar, and stands for the tree. */
  lemma {:induction false} PrintedMeans(v: Json)
    requires Printable(v)
    ensures DocOk(Printed(v)) && Body(v) == DocText(Printed(v)) && DocTree(Printed(v), v.name) == Indexed(v)
    decreases v, 1
  {
    hide ItemsText, Items, PrintedItems, ItemTrees, ItemOk, Printable, GoodName, Printed, GoodLeaf, Body, DocText, DocTree, DocOk, Decimal, Indexed, NumberName;
    PrintableMeans(v);
    if IsContainer(v) {
      PrintedKids(v.kids, v.kind == Object, 0);
      PrintedBox(v);
    } else {
      PrintedLeaf(v);
    }
  }

  lemma PrintableMeans(v: Json)
    requires Printable(v)
    ensures if IsContainer(v) then
              && v.value == []
              && forall i :: 0 <= i < |v.kids| ==>
                   Printable(v.kids[i]) && if v.kind == Object then GoodName(v.kids[i].name) else NumberName(v.kids[i].name)
            else GoodLeaf(v)
  {
    hide GoodName, GoodLeaf, NumberName;
  }

  lemma PrintedBox(v: Json)
    requires IsContainer(v) && v.value == []
    requires var isObject := v.kind == Object;
             && (forall i :: 0 <= i < |v.kids| ==> ItemOk(isObject, PrintedItems(v.kids)[i]))
             && Items(v.kids, !isObject) == ItemsText(isObject, PrintedItems(v.kids))
             && ItemTrees(isObject, PrintedItems(v.kids), 0) == IndexedKids(v.kids, !isObject, 0)
    ensures DocOk(Printed(v)) && Body(v) == DocText(Printed(v)) && DocTree(Printed(v), v.name) == Indexed(v)
  {
    hide ItemsText, Items, PrintedItems, ItemTrees, ItemOk, IndexedKids;
    BoxOk(v.kind == Object, PrintedItems(v.kids));
  }

  lemma BoxOk(isObject: bool, items: seq<Item>)
    requires forall i :: 0 <= i < |items| ==> ItemOk(isObject, items[i])
    ensures DocOk(BoxDoc(isObject, [], items, []))
  {
    hide ItemOk;
  }

  lemma {:induction false} PrintedKids(kids: seq<Json>, isObject: bool, k: nat)
    requires forall i :: 0 <= i < |kids| ==> Printable(kids[i]) && if isObject then GoodName(kids[i].name) else NumberName(kids[i].name)
    ensures forall i :: 0 <= i < |kids| ==> ItemOk(isObject, PrintedItems(kids)[i])
    ensures Items(kids, !isObject) == ItemsText(isObject, PrintedItems(kids))
    ensures ItemTrees(isObject, PrintedItems(kids), k) == IndexedKids(kids, !isObject, k)
    decreases kids, 0
  {
    hide Text, DocText, DocTree, Printable, GoodName, NumberName, Decimal, Printed, Indexed, Label, LabelText, Spelled;
    if kids != [] {
      PrintedItem(kids[0], isObject, k);
      PrintedKids(kids[1..], isObject, k + 1);
    }
  }

  lemma {:induction false} PrintedItem(v: Json, isObject: bool, k: nat)
    requires Printable(v) && if isObject then GoodName(v.name) else NumberName(v.name)
    ensures var it := Item(PrintedSpots(v.name), [], [], Printed(v), []);
            && ItemOk(isObject, it) && Text(v, !isObject) == LabelText(isObject, it) + DocText(it.value)
            && DocTree(it.value, if isObject then Spelled(it.title) else Decimal(k)) == if isObject then Indexed(v) else Indexed(v).(name := Decimal(k))
    decreases v, 2
  {
    hide Body, DocText, DocTree, DocOk, Printable, Printed, Indexed, PrintedSpots, Decimal, GoodName, NumberName, LabelText, Label, Spelled, SpotsOk;
    PrintedMeans(v);
    PrintedLabel(v, isObject, Printed(v));
    if !isObject { TreeName(Printed(v), v.name, Decimal(k)); }
  }

  lemma PrintedLabel(v: Json, isObject: bool, d: Doc)
    requires if isObject then GoodName(v.name) else NumberName(v.name)
    ensures var it := Item(PrintedSpots(v.name), [], [], d, []);
            && Label(v, !isObject) == LabelText(isObject, it)
            && (isObject ==> SpotsOk(it.title) && Spelled(it.title) == v.name != [])
  {
    hide Spelling, Spelled, SpotsOk, PrintedSpots;
    if isObject { GoodNamePrinted(v.name); }
  }

  // ----------------------------------------------------------- whole texts

  /** Parsing the printed form of a canonical tree gives the tree. */
  lemma RoundTrip(v: Json)
    requires IsContainer(v) && Printable(v) && v.name == []
    ensures Parsed(Text(v, false), -1) == Tree(Indexed(v)) && (IsIndexed(v) ==> Indexed(v) == v)
  {
    PrintedMeans(v);
    assert Text(v, false) == Body(v);
    assert Body(v) + [] == Body(v);
    assert Printed(v).BoxDoc?;
    hide Run, Printable, Indexed, IsIndexed, Body, Text, DocText, DocTree, DocOk, Printed, Parsed;
    DocParses(Printed(v), [], -1);
    if IsIndexed(v) { IndexedSame(v); }
  }

  /** The members of an array up to the k-th, and its name as a string. */
  function UpToName(kids: seq<Json>, k: nat): (items: seq<Item>)
    requires k < |kids|
    ensures items != []
    decreases k
  {
    if k == 0 then [Item([], [], [], StringDoc(PrintedSpots(kids[0].name), []), [])]
    else [Item(PrintedSpots(kids[0].name), [], [], Printed(kids[0]), [])] + UpToName(kids[1..], k - 1)
  }

  lemma {:induction false} NameSplits(kids: seq<Json>, k: nat) returns (more: Str)
    requires k < |kids| && GoodName(kids[k].name) && !NumberName(kids[k].name)
    requires forall i :: 0 <= i < k ==> Printable(kids[i]) && NumberName(kids[i].name)
    ensures Items(kids, true) == ItemsText(false, UpToName(kids, k)) + [':' as int] + more
    ensures forall i :: 0 <= i < |UpToName(kids, k)| ==> ItemOk(false, UpToName(kids, k)[i])
    ensures var items := UpToName(kids, k); items[|items| - 1].value.StringDoc?
    decreases k
  {
    hide Printable, GoodName, NumberName, Text, ItemOk, Items, ItemsText, DocText, LabelText, Printed, PrintedSpots, Indexed, DocTree;
    if k == 0 {
      more := NameFirst(kids);
    } else {
      more := NameSplits(kids[1..], k - 1);
      PrintedItem(kids[0], false, 0);
      var it, rest := Item(PrintedSpots(kids[0].name), [], [], Printed(kids[0]), []), UpToName(kids[1..], k - 1);
      ItemsOne(it, rest);
      ItemsCons(kids);
      var t, r := DocText(it.value) + [COMMA], ItemsText(false, rest);
      Assoc(t, r, [':' as int]);
      Assoc(t, r + [':' as int], more);
    }
  }

  lemma ItemsCons(kids: seq<Json>)
    requires |kids| > 1
    ensures Items(kids, true) == Text(kids[0], true) + [COMMA] + Items(kids[1..], true)
  {
    hide Text;
  }

  lemma ItemsOne(it: Item, rest: seq<Item>)
    requires rest != [] && it.comma == []
    ensures ItemsText(false, [it] + rest) == DocText(it.value) + [COMMA] + ItemsText(false, rest)
    ensures LabelText(false, it) + DocText(it.value) == DocText(it.value)
  {
    hide DocText;
    assert ([it] + rest)[1..] == rest;
    Assoc(DocText(it.value), [COMMA], ItemsText(false, rest));
  }

  /** A member that is first and has a name. */
  lemma NameFirst(kids: seq<Json>) returns (more: Str)
    requires kids != [] && GoodName(kids[0].name) && !NumberName(kids[0].name)
    ensures Items(kids, true) == ItemsText(false, UpToName(kids, 0)) + [':' as int] + more
    ensures ItemOk(false, UpToName(kids, 0)[0]) && |UpToName(kids, 0)| == 1 && UpToName(kids, 0)[0].value.StringDoc?
  {
    hide Body, PrintedSpots, Spelling, SpotsOk, Spelled, Items, ItemsText;
    var name := kids[0].name;
    var t: Str := [QUOTE] + name + [QUOTE];
    GoodNamePrinted(name);
    NameText(name);
    var b, rest: Str := Body(kids[0]), if |kids| == 1 then [] else [COMMA] + Items(kids[1..], true);
    more := b + rest;
    ItemsHead(kids);
    assert Text(kids[0], true) == t + [':' as int] + b;
    Assoc(t + [':' as int], b, rest);
  }

  lemma ItemsHead(kids: seq<Json>)
    requires kids != []
    ensures Items(kids, true) == Text(kids[0], true) + if |kids| == 1 then [] else [COMMA] + Items(kids[1..], true)
  {
    hide Text;
    if |kids| > 1 { Assoc(Text(kids[0], true), [COMMA], Items(kids[1..], true)); }
  }

  lemma NameText(name: Str)
    requires Spelling(PrintedSpots(name)) == name
    ensures ItemsText(false, [Item([], [], [], StringDoc(PrintedSpots(name), []), [])]) == [QUOTE] + name + [QUOTE]
  {
    hide Spelling, PrintedSpots;
  }

  /** An array with a member that has another name is printed with the name, as no array is
      read. */
  lemma NamedMemberRefused(v: Json, k: nat)
    requires v.kind == Array && v.name == [] && k < |v.kids| && GoodName(v.kids[k].name) && !NumberName(v.kids[k].name)
    requires forall i :: 0 <= i < k ==> Printable(v.kids[i]) && NumberName(v.kids[i].name)
    ensures Parsed(Text(v, false), -1) == NoTree
  {
    hide Printable, GoodName, NumberName, ItemOk, Items, ItemsText, UpToName, Parsed;
    var more := NameSplits(v.kids, k);
    var items := UpToName(v.kids, k);
    var l := Level(false, [], items, None, NoLabel);
    var t, colon: Str := ItemsText(false, items), [':' as int];
    var src := Text(v, false);
    ArrayText(v);
    hide Text;
    Assoc(t, colon, more + [RBRACKET]);
    Assoc(t + colon, more, [RBRACKET]);
    Assoc([LBRACKET], t + colon + more, [RBRACKET]);
    Assoc([LBRACKET], t, colon + (more + [RBRACKET]));
    var open := [LBRACKET] + t;
    LevelTextIs(l);
    assert LevelText(l) == open;
    hide LevelText;
    assert src == open + (colon + (more + [RBRACKET]));
    ReadsPrefix(open, colon + (more + [RBRACKET]));
    OneLevel(src, l);
    ColonRefused(src, -1, [l]);
  }

  lemma ArrayText(v: Json)
    requires v.kind == Array && v.name == []
    ensures Text(v, false) == [LBRACKET] + Items(v.kids, true) + [RBRACKET]
  {
    hide Items;
    assert Label(v, false) == [] && [] + Body(v) == Body(v);
  }

  lemma OneLevel(src: Str, l: Level)
    requires LevelOk(l) && !Tight(l) && Reads(src, 0, LevelText(l)) && !Blank(Peek(src, |LevelText(l)|))
    ensures OpenNext(src, [l]) && OpenText([l]) == LevelText(l)
  {
    hide LevelText, LevelOk, Tight;
    assert OpenText([l][..0]) == [];
    assert [] + LevelText(l) == LevelText(l);
  }

  /** What the two programs do together. */
  method PrintAndParse(v: Json) returns (r: Result)
    requires IsContainer(v) && Printable(v) && v.name == []
    ensures r == Tree(Indexed(v)) && (IsIndexed(v) ==> r == Tree(v))
  {
    hide Text, Parsed;
    var text := Stringify(v, false);
    r := Parse(text, -1);
    RoundTrip(v);
  }
}
