/** The parser and the grammar: every text of a container is read to its tree, whatever blanks it
    has, and texts that go wrong at some token are refused. */
module JsonDocs {
  import opened Bytes
  import opened Json
  import opened JsonTexts
  import opened JsonParser
  import opened JsonStrings

  // ------------------------------------------------------------ reading on

  lemma ReadsFirst(src: Str, p: nat, a: Str)
    requires Reads(src, p, a) && a != []
    ensures p + |a| <= |src| && src[p] == a[0] == Peek(src, p)
  {
  }

  /** The size allows for q characters. */
  predicate Room(size: int, q: nat) {
    size < 0 || q <= size
  }

  lemma {:induction false} SkipGap(src: Str, p: nat, gap: Str)
    requires Gap(gap) && Reads(src, p, gap) && !Blank(Peek(src, p + |gap|))
    ensures SkipSpace(src, p) == p + |gap|
    decreases |gap|
  {
    if gap != [] {
      ReadsFirst(src, p, gap);
      ReadsHead(src, p, gap, 1);
      SkipGap(src, p + 1, gap[1..]);
    }
  }

  /** One token and the blanks behind it. */
  lemma TokenRuns(src: Str, size: int, p: nat, st: State, q: nat, st': State, gap: Str)
    requires Peek(src, p) != 0 && OneStep(src, p, st) == Next(q, st') && Room(size, p + 1)
    requires Gap(gap) && Reads(src, q, gap) && !Blank(Peek(src, q + |gap|))
    ensures Run(src, size, p, st) == Run(src, size, q + |gap|, st')
  {
    hide OneStep, Gap, Reads, Blank;
    SkipGap(src, q, gap);
  }

  // ------------------------------------------------------------- the leaves

  /** The state once v is a member of the innermost container. */
  function Into(st: State, v: Json): State
    requires st.stack != []
  {
    WithTop(st, Append(Top(st), v)).(name := [])
  }

  /** Behind a value there is no blank, and behind a number without blanks one of the characters
      that end numbers. */
  predicate Behind(src: Str, q: nat, d: Doc) {
    && !Blank(Peek(src, q))
    && (d.NumberDoc? && d.gap == [] ==> Peek(src, q) in {',' as int, ']' as int, '}' as int})
  }

  /** A value that is no container, without the blanks behind it. */
  function Core(d: Doc): Str {
    match d
    case NullDoc(_) => NULL_WORD
    case BoolDoc(b, _) => if b then TRUE_WORD else FALSE_WORD
    case NumberDoc(t, _) => t
    case StringDoc(xs, _) => ['"' as int] + Spelling(xs) + ['"' as int]
    case _ => []
  }

  /** A value may stand here: in an object its name has been read. */
  predicate Ready(st: State) {
    st.stack != [] && (Top(st).kind == Object ==> st.name != [])
  }

  lemma OtherWord(src: Str, p: nat, word: Str)
    requires word != [] && p < |src| && src[p] != word[0]
    ensures !Reads(src, p, word)
  {
  }

  lemma WordStep(src: Str, p: nat, st: State, d: Doc)
    requires Ready(st) && (d.NullDoc? || d.BoolDoc?) && DocOk(d) && Reads(src, p, Core(d))
    ensures Peek(src, p) != 0 && OneStep(src, p, st) == Next(p + |Core(d)|, Into(st, DocTree(d, st.name)))
  {
    hide ReadString, NumberEnd, IsFloat, Reads, Append, WithTop, Gap;
    var word := Core(d);
    ReadsFirst(src, p, word);
    if word != NULL_TEXT { OtherWord(src, p, NULL_TEXT); }
    if word != TRUE_TEXT { OtherWord(src, p, TRUE_TEXT); }
  }

  lemma NumberStep(src: Str, p: nat, st: State, d: Doc)
    requires Ready(st) && d.NumberDoc? && DocOk(d) && Reads(src, p, d.number) && p + |d.number| < |src|
    requires var c := src[p + |d.number|]; Blank(c) || c == ',' as int || c == ']' as int || c == '}' as int
    ensures Peek(src, p) != 0 && OneStep(src, p, st) == Next(p + |d.number|, Into(st, DocTree(d, st.name)))
  {
    hide ReadString, NumberEnd, Reads, Append, WithTop, Gap, NumberOk, IsFloat;
    NumberFirst(d.number);
    ReadsFirst(src, p, d.number);
    OtherWord(src, p, NULL_TEXT);
    OtherWord(src, p, TRUE_TEXT);
    OtherWord(src, p, FALSE_TEXT);
    NumberRead(src, p, d.number);
    FloatMeans(d.number);
  }

  lemma NumberFirst(t: Str)
    requires NumberOk(t)
    ensures t != [] && StartsNumber(t[0])
  {
  }

  lemma FloatMeans(t: Str)
    ensures IsFloat(t) <==> '.' as int in t || 'e' as int in t || 'E' as int in t
  {
  }

  lemma NumberRead(src: Str, p: nat, t: Str)
    requires NumberOk(t) && Reads(src, p, t) && p + |t| < |src|
    requires var c := src[p + |t|]; Blank(c) || c == ',' as int || c == ']' as int || c == '}' as int
    ensures NumberEnd(src, p + 1) == p + |t| && src[p..p + |t|] == t
  {
  }

  /** A string, from its first quote on. */
  lemma StringRead(src: Str, p: nat, xs: seq<Spot>)
    requires SpotsOk(xs) && Reads(src, p, ['"' as int] + Spelling(xs) + ['"' as int])
    ensures Peek(src, p) == QUOTE && ReadString(src, p + 1, []) == Token(Spelled(xs), p + |Spelling(xs)| + 2)
  {
    hide Spelling, Spelled, Reads, ReadString, Legal, Plain, SpotsOk, Peek;
    var t := Spelling(xs);
    ReadsAll(src, p, [QUOTE], t, [QUOTE]);
    ReadsFirst(src, p, [QUOTE]);
    ReadsFirst(src, p + 1 + |t|, [QUOTE]);
    SpellingLegal(xs);
    SpelledIsRead(src, p + 1, [], t, p + |t| + 2);
    assert [] + Plain(t) == Plain(t);
  }

  lemma StringStep(src: Str, p: nat, st: State, d: Doc)
    requires Ready(st) && d.StringDoc? && DocOk(d) && Reads(src, p, Core(d))
    ensures Peek(src, p) != 0 && OneStep(src, p, st) == Next(p + |Core(d)|, Into(st, DocTree(d, st.name)))
  {
    hide ReadString, Spelling, Spelled, Reads, SpotsOk, Append, WithTop, Gap;
    StringRead(src, p, d.xs);
  }

  lemma CoreParts(d: Doc)
    requires !d.BoxDoc? && DocOk(d)
    ensures DocText(d) == Core(d) + d.gap && Gap(d.gap)
  {
    hide Gap, Spelling;
  }

  /** What is directly behind a number. */
  lemma NumberEnds(src: Str, q: nat, gap: Str)
    requires Gap(gap) && Reads(src, q, gap)
    requires gap == [] ==> Peek(src, q) in {',' as int, ']' as int, '}' as int}
    ensures q < |src| && (var c := src[q]; Blank(c) || c == ',' as int || c == ']' as int || c == '}' as int)
  {
    if gap != [] { ReadsFirst(src, q, gap); }
  }

  lemma LeafStep(src: Str, p: nat, st: State, d: Doc)
    requires Ready(st) && !d.BoxDoc? && DocOk(d) && Reads(src, p, Core(d)) && Gap(d.gap) && Reads(src, p + |Core(d)|, d.gap)
    requires Behind(src, p + |Core(d)| + |d.gap|, d)
    ensures Peek(src, p) != 0 && OneStep(src, p, st) == Next(p + |Core(d)|, Into(st, DocTree(d, st.name)))
  {
    hide OneStep, Reads, Ready, Into, DocTree, Gap, Blank, DocOk, Peek;
    match d {
      case NullDoc(_) => WordStep(src, p, st, d);
      case BoolDoc(_, _) => WordStep(src, p, st, d);
      case NumberDoc(t, gap) =>
        NumberEnds(src, p + |t|, gap);
        NumberStep(src, p, st, d);
      case StringDoc(_, _) => StringStep(src, p, st, d);
    }
  }

  lemma BehindSolid(src: Str, q: nat, d: Doc)
    requires Behind(src, q, d)
    ensures !Blank(Peek(src, q))
  {
  }

  lemma LeafRuns(src: Str, size: int, p: nat, st: State, d: Doc)
    requires Ready(st) && !d.BoxDoc? && DocOk(d) && Reads(src, p, DocText(d))
    requires Behind(src, p + |DocText(d)|, d) && Room(size, p + |DocText(d)|)
    ensures Run(src, size, p, st) == Run(src, size, p + |DocText(d)|, Into(st, DocTree(d, st.name)))
  {
    hide OneStep, Run, Reads, Into, DocTree, DocText, DocOk, Core, Gap, Blank, Peek, Behind;
    CoreParts(d);
    BehindSolid(src, p + |DocText(d)|, d);
    ReadsBoth(src, p, Core(d), d.gap);
    LeafStep(src, p, st, d);
    StepAdvances(src, p, st);
    TokenRuns(src, size, p, st, p + |Core(d)|, Into(st, DocTree(d, st.name)), d.gap);
  }

  lemma StepAdvances(src: Str, p: nat, st: State)
    requires Peek(src, p) != 0
    ensures var s := OneStep(src, p, st); s.Next? ==> p < s.pos
  {
  }

  // ----------------------------------------------------------- containers

  function KindOf(isObject: bool): JsonType {
    if isObject then Object else Array
  }

  function Opening(isObject: bool): Byte {
    if isObject then '{' as int else '[' as int
  }

  function Closing(isObject: bool): Byte {
    if isObject then '}' as int else ']' as int
  }

  /** A value begins with something that is neither blank nor the end of the text. */
  lemma DocBegins(d: Doc)
    requires DocOk(d)
    ensures DocText(d) != [] && !Blank(DocText(d)[0]) && DocText(d)[0] != 0
  {
    hide Spelling, Gap, ItemsText;
  }

  lemma ItemBegins(isObject: bool, items: seq<Item>)
    requires items != [] && ItemOk(isObject, items[0])
    ensures ItemsText(isObject, items) != [] && !Blank(ItemsText(isObject, items)[0])
  {
    DocBegins(items[0].value);
    hide Spelling, Gap, DocText, DocOk;
  }

  /** The names of trees are what they are given. */
  lemma TreeName(d: Doc, a: Str, b: Str)
    requires DocOk(d)
    ensures DocTree(d, a).(name := b) == DocTree(d, b) && DocTree(d, a).name == a
  {
    hide DocOk, ItemTrees, Spelled;
  }

  /** The title of a member: it is the pending name after it. */
  lemma TitleStep(src: Str, p: nat, st: State, xs: seq<Spot>)
    requires st.stack != [] && st.name == [] && Top(st).kind == Object && SpotsOk(xs)
    requires Reads(src, p, ['"' as int] + Spelling(xs) + ['"' as int])
    ensures Peek(src, p) != 0 && OneStep(src, p, st) == Next(p + |Spelling(xs)| + 2, st.(name := Spelled(xs)))
  {
    hide ReadString, Spelling, Spelled, Reads, SpotsOk;
    StringRead(src, p, xs);
  }

  lemma ColonStep(src: Str, p: nat, st: State)
    requires st.stack != [] && Top(st).kind == Object && Reads(src, p, [':' as int])
    ensures Peek(src, p) == COLON && OneStep(src, p, st) == Next(p + 1, st)
  {
    ReadsFirst(src, p, [':' as int]);
    hide Reads;
  }

  lemma CommaStep(src: Str, p: nat, st: State)
    requires st.stack != [] && Reads(src, p, [',' as int])
    ensures Peek(src, p) == COMMA && OneStep(src, p, st) == Next(p + 1, st)
  {
    ReadsFirst(src, p, [',' as int]);
    hide Reads;
  }

  lemma LabelParts(src: Str, p: nat, it: Item)
    requires Reads(src, p, LabelText(true, it))
    ensures var q := p + |Spelling(it.title)| + 2;
            && Reads(src, p, ['"' as int] + Spelling(it.title) + ['"' as int]) && Reads(src, q, it.named)
            && Reads(src, q + |it.named|, [':' as int]) && Reads(src, q + |it.named| + 1, it.colon)
            && |LabelText(true, it)| == |Spelling(it.title)| + 3 + |it.named| + |it.colon|
  {
    var t := ['"' as int] + Spelling(it.title) + ['"' as int];
    hide Reads, Spelling;
    ReadsAll(src, p, t + it.named, [':' as int], it.colon);
    ReadsBoth(src, p, t, it.named);
  }

  /** The label of a member of an object. */
  lemma LabelRuns(src: Str, size: int, p: nat, st: State, it: Item)
    requires st.stack != [] && st.name == [] && Top(st).kind == Object
    requires SpotsOk(it.title) && Gap(it.named) && Gap(it.colon) && Reads(src, p, LabelText(true, it))
    requires var q := p + |LabelText(true, it)|; !Blank(Peek(src, q)) && Room(size, q)
    ensures Run(src, size, p, st) == Run(src, size, p + |LabelText(true, it)|, st.(name := Spelled(it.title)))
  {
    hide OneStep, Run, LabelText, Reads, Gap, Blank, Spelling, Spelled, SpotsOk, Peek;
    LabelParts(src, p, it);
    var named := st.(name := Spelled(it.title));
    var q := p + |Spelling(it.title)| + 2;
    TitleStep(src, p, st, it.title);
    ColonStep(src, q + |it.named|, named);
    MarkSolid();
    TokenRuns(src, size, p, st, q, named, it.named);
    TokenRuns(src, size, q + |it.named|, named, q + |it.named| + 1, named, it.colon);
  }

  lemma MarkSolid()
    ensures !Blank(COLON) && !Blank(COMMA) && !Blank(RBRACE) && !Blank(RBRACKET)
  {
  }

  /** The state with more members in the innermost container. */
  function WithMore(st: State, kids: seq<Json>): State
    requires st.stack != []
  {
    WithTop(st, Top(st).(kids := Top(st).kids + kids))
  }

  lemma WithMoreNone(st: State)
    requires st.stack != []
    ensures WithMore(st, []) == st
  {
    assert Top(st).kids + [] == Top(st).kids;
  }

  lemma WithMoreOn(st: State, a: seq<Json>, b: seq<Json>)
    requires st.stack != []
    ensures var s := WithMore(st, a);
            && s.stack != [] && Top(s).kind == Top(st).kind && |Top(s).kids| == |Top(st).kids| + |a| && s.name == st.name
            && WithMore(s, b) == WithMore(st, a + b)
  {
    Assoc(Top(st).kids, a, b);
  }

  /** The members of a container are next, and then something else. */
  predicate ItemsNext(src: Str, p: nat, st: State, isObject: bool, items: seq<Item>) {
    && st.stack != [] && st.name == [] && Top(st).kind == KindOf(isObject)
    && (forall i :: 0 <= i < |items| ==> ItemOk(isObject, items[i]))
    && Reads(src, p, ItemsText(isObject, items)) && BehindItems(src, p + |ItemsText(isObject, items)|, items)
  }

  predicate BehindItems(src: Str, q: nat, items: seq<Item>) {
    !Blank(Peek(src, q)) && (items != [] ==> Behind(src, q, items[|items| - 1].value))
  }

  function ItemName(isObject: bool, it: Item, k: nat): Str
    requires ItemOk(isObject, it)
  {
    if isObject then Spelled(it.title) else Decimal(k)
  }

  /** A value is read and is a member of the innermost container. */
  lemma {:induction false} DocRuns(src: Str, size: int, p: nat, st: State, d: Doc)
    requires Ready(st) && DocOk(d) && Reads(src, p, DocText(d))
    requires Behind(src, p + |DocText(d)|, d) && Room(size, p + |DocText(d)|)
    ensures Run(src, size, p, st) == Run(src, size, p + |DocText(d)|, Into(st, DocTree(d, st.name)))
    decreases d, 2
  {
    if d.BoxDoc? {
      hide Run, Reads, Into, DocTree, DocText, DocOk, Close, ItemTrees;
      BoxRuns(src, size, p, st, d);
      CloseInto(st, d);
    } else {
      LeafRuns(src, size, p, st, d);
    }
  }

  /** The container d with all its members, on the stack. */
  function Full(st: State, d: Doc): State
    requires d.BoxDoc? && DocOk(d)
  {
    st.(name := [], stack := st.stack + [Frame(KindOf(d.isObject), st.name, ItemTrees(d.isObject, d.items, 0))])
  }

  lemma CloseInto(st: State, d: Doc)
    requires st.stack != [] && d.BoxDoc? && DocOk(d)
    ensures Close(Full(st, d)) == Into(st, DocTree(d, st.name))
  {
    hide ItemTrees, Append, Gap;
  }

  lemma BoxParts(src: Str, p: nat, d: Doc)
    requires d.BoxDoc? && DocOk(d) && Reads(src, p, DocText(d))
    ensures var q := p + 1 + |d.inner| + |ItemsText(d.isObject, d.items)|;
            && Peek(src, p) == Opening(d.isObject) && Reads(src, p + 1, d.inner)
            && Reads(src, p + 1 + |d.inner|, ItemsText(d.isObject, d.items))
            && Peek(src, q) == Closing(d.isObject) && Reads(src, q + 1, d.gap) && p + |DocText(d)| == q + 1 + |d.gap|
    ensures Gap(d.inner) && Gap(d.gap) && forall i :: 0 <= i < |d.items| ==> ItemOk(d.isObject, d.items[i])
  {
    var items := ItemsText(d.isObject, d.items);
    var a, z: Str := [Opening(d.isObject)], [Closing(d.isObject)];
    assert DocText(d) == a + d.inner + items + z + d.gap;
    hide Reads, DocText, Gap;
    ReadsAll(src, p, a + d.inner + items, z, d.gap);
    ReadsAll(src, p, a, d.inner, items);
    ReadsFirst(src, p, a);
    ReadsFirst(src, p + 1 + |d.inner| + |items|, z);
  }

  lemma OpenStep(src: Str, p: nat, st: State, isObject: bool)
    requires Peek(src, p) == Opening(isObject) && (st.stack == [] ==> st.root.None?)
    ensures OneStep(src, p, st) == Next(p + 1, Open(st, KindOf(isObject)))
  {
  }

  lemma CloseStep(src: Str, p: nat, st: State, isObject: bool)
    requires Peek(src, p) == Closing(isObject) && st.stack != [] && Top(st).kind == KindOf(isObject)
    ensures OneStep(src, p, st) == Next(p + 1, Close(st))
  {
    hide Close;
  }

  /** From the opening bracket of a container to what comes after its closing bracket. */
  lemma {:induction false} BoxRuns(src: Str, size: int, p: nat, st: State, d: Doc)
    requires d.BoxDoc? && DocOk(d) && Reads(src, p, DocText(d)) && (st.stack == [] ==> st.root.None?)
    requires !Blank(Peek(src, p + |DocText(d)|)) && Room(size, p + |DocText(d)|)
    ensures Run(src, size, p, st) == Run(src, size, p + |DocText(d)|, Close(Full(st, d)))
    decreases d, 1
  {
    hide Run, OneStep, Reads, DocText, DocOk, ItemOk, Close, ItemsText, Gap, Peek, Blank, Full, BehindItems, Closing, Opening, WithMore, Open, ItemTrees;
    BoxParts(src, p, d);
    var items := ItemsText(d.isObject, d.items);
    var inside, full := Open(st, KindOf(d.isObject)), Full(st, d);
    var q := p + 1 + |d.inner| + |items|;
    Brackets(src, p, d, q);
    OpenStep(src, p, st, d.isObject);
    FullIs(st, d);
    TokenRuns(src, size, p, st, p + 1, inside, d.inner);
    assert ItemsNext(src, p + 1 + |d.inner|, inside, d.isObject, d.items);
    ItemsRun(src, size, p + 1 + |d.inner|, inside, d.isObject, d.items);
    CloseStep(src, q, full, d.isObject);
    TokenRuns(src, size, q, full, q + 1, Close(full), d.gap);
  }

  lemma FullIs(st: State, d: Doc)
    requires d.BoxDoc? && DocOk(d)
    ensures var inside := Open(st, KindOf(d.isObject));
            && inside.stack != [] && inside.name == [] && Top(inside).kind == KindOf(d.isObject) && Top(inside).kids == []
            && WithMore(inside, ItemTrees(d.isObject, d.items, 0)) == Full(st, d)
            && Full(st, d).stack != [] && Top(Full(st, d)).kind == KindOf(d.isObject)
  {
    hide ItemTrees, Gap;
    assert [] + ItemTrees(d.isObject, d.items, 0) == ItemTrees(d.isObject, d.items, 0);
  }

  /** What is behind the opening bracket, and behind the members. */
  lemma Brackets(src: Str, p: nat, d: Doc, q: nat)
    requires d.BoxDoc? && (forall i :: 0 <= i < |d.items| ==> ItemOk(d.isObject, d.items[i]))
    requires Peek(src, p) == Opening(d.isObject) && Peek(src, q) == Closing(d.isObject)
    requires Reads(src, p + 1 + |d.inner|, ItemsText(d.isObject, d.items))
    requires q == p + 1 + |d.inner| + |ItemsText(d.isObject, d.items)|
    ensures Peek(src, p) != 0 && Peek(src, q) != 0 && !Blank(Peek(src, p + 1 + |d.inner|)) && BehindItems(src, q, d.items)
  {
    if d.items == [] { assert ItemsText(d.isObject, d.items) == []; }
    hide ItemsText, ItemOk, Reads, DocText;
    if d.items != [] {
      ItemBegins(d.isObject, d.items);
      ReadsFirst(src, p + 1 + |d.inner|, ItemsText(d.isObject, d.items));
    }
  }

  lemma ItemsTextIs(isObject: bool, items: seq<Item>)
    requires items != []
    ensures ItemsText(isObject, items) == LabelText(isObject, items[0]) + DocText(items[0].value)
            + if |items| == 1 then [] else [',' as int] + items[0].comma + ItemsText(isObject, items[1..])
  {
    hide LabelText, DocText;
  }

  /** The first member, and the comma and the others behind it. */
  lemma ItemParts(src: Str, p: nat, isObject: bool, items: seq<Item>)
    requires items != [] && Reads(src, p, ItemsText(isObject, items))
    ensures var it, more, z := items[0], items[1..], p + |ItemsText(isObject, items)|;
            var q := p + |LabelText(isObject, it)| + |DocText(it.value)|;
            && Reads(src, p, LabelText(isObject, it)) && Reads(src, p + |LabelText(isObject, it)|, DocText(it.value))
            && if more == [] then z == q
               else && Reads(src, q, [',' as int]) && Reads(src, q + 1, it.comma)
                    && Reads(src, q + 1 + |it.comma|, ItemsText(isObject, more)) && z == q + 1 + |it.comma| + |ItemsText(isObject, more)|
  {
    hide Reads, ItemsText, DocText, LabelText;
    var it, more := items[0], items[1..];
    var title, text, rest := LabelText(isObject, it), DocText(it.value), ItemsText(isObject, more);
    var tail := if |items| == 1 then [] else [',' as int] + it.comma + rest;
    ItemsTextIs(isObject, items);
    ReadsAll(src, p, title, text, tail);
    if more != [] { ReadsAll(src, p + |title| + |text|, [',' as int], it.comma, rest); }
  }

  lemma ItemBehind(src: Str, p: nat, st: State, isObject: bool, items: seq<Item>)
    requires ItemsNext(src, p, st, isObject, items) && items != []
    ensures ItemOk(isObject, items[0]) && Behind(src, p + |LabelText(isObject, items[0])| + |DocText(items[0].value)|, items[0].value)
  {
    hide ItemOk, Reads, ItemsText, DocText, LabelText, Blank;
    ItemParts(src, p, isObject, items);
    if |items| > 1 {
      var q := p + |LabelText(isObject, items[0])| + |DocText(items[0].value)|;
      ReadsFirst(src, q, [',' as int]);
      MarkSolid();
    }
  }

  lemma ItemsNow(src: Str, p: nat, st: State, isObject: bool, items: seq<Item>)
    requires ItemsNext(src, p, st, isObject, items)
    ensures st.stack != [] && st.name == [] && Top(st).kind == KindOf(isObject)
    ensures (forall i :: 0 <= i < |items| ==> ItemOk(isObject, items[i])) && Reads(src, p, ItemsText(isObject, items))
  {
  }

  lemma GapOf(isObject: bool, it: Item)
    requires ItemOk(isObject, it)
    ensures Gap(it.comma)
  {
    hide Gap, DocOk;
  }

  /** The others, once the first member has been read. */
  lemma MoreItems(src: Str, p: nat, st: State, isObject: bool, items: seq<Item>, added: State)
    requires ItemsNext(src, p, st, isObject, items) && |items| > 1
    requires added.stack != [] && Top(added).kind == Top(st).kind && added.name == []
    ensures var q := p + |LabelText(isObject, items[0])| + |DocText(items[0].value)| + 1 + |items[0].comma|;
            Gap(items[0].comma) && !Blank(Peek(src, q)) && ItemsNext(src, q, added, isObject, items[1..])
  {
    hide ItemOk, Reads, ItemsText, DocText, LabelText, Blank, Gap, Behind, Peek, KindOf, Top;
    ItemsNow(src, p, st, isObject, items);
    BehindMore(src, p, st, isObject, items);
    hide ItemsNext, BehindItems;
    var more := items[1..];
    var q := p + |LabelText(isObject, items[0])| + |DocText(items[0].value)| + 1 + |items[0].comma|;
    assert ItemOk(isObject, items[0]);
    assert forall i :: 0 <= i < |more| ==> ItemOk(isObject, more[i]) by {
      assert forall i :: 0 <= i < |more| ==> more[i] == items[i + 1];
    }
    GapOf(isObject, items[0]);
    ItemParts(src, p, isObject, items);
    ItemBegins(isObject, more);
    ReadsFirst(src, q, ItemsText(isObject, more));
    ItemsAre(src, q, added, isObject, more);
  }

  lemma BehindMore(src: Str, p: nat, st: State, isObject: bool, items: seq<Item>)
    requires ItemsNext(src, p, st, isObject, items) && |items| > 1
    ensures BehindItems(src, p + |ItemsText(isObject, items)|, items[1..])
  {
    hide ItemOk, Reads, ItemsText, Blank, Behind, Peek;
  }

  lemma ItemsAre(src: Str, p: nat, st: State, isObject: bool, items: seq<Item>)
    requires st.stack != [] && st.name == [] && Top(st).kind == KindOf(isObject)
    requires forall i :: 0 <= i < |items| ==> ItemOk(isObject, items[i])
    requires Reads(src, p, ItemsText(isObject, items)) && BehindItems(src, p + |ItemsText(isObject, items)|, items)
    ensures ItemsNext(src, p, st, isObject, items)
  {
    hide ItemOk, Reads, ItemsText, BehindItems;
  }

  lemma ItemTreesStep(isObject: bool, items: seq<Item>, k: nat)
    requires items != [] && forall i :: 0 <= i < |items| ==> ItemOk(isObject, items[i])
    ensures ItemTrees(isObject, items, k) ==
            [DocTree(items[0].value, ItemName(isObject, items[0], k))] + ItemTrees(isObject, items[1..], k + 1)
  {
    hide DocTree, Spelled, Gap;
  }

  /** A value is a member under its name, in an array under its index. */
  lemma IntoMore(st: State, isObject: bool, it: Item)
    requires st.stack != [] && st.name == [] && Top(st).kind == KindOf(isObject) && ItemOk(isObject, it)
    ensures var named := if isObject then st.(name := Spelled(it.title)) else st;
            && Ready(named) && Into(named, DocTree(it.value, named.name)) ==
               WithMore(st, [DocTree(it.value, ItemName(isObject, it, |Top(st).kids|))])
  {
    hide DocTree, DocOk, Gap, Spelled, Decimal;
    var k := |Top(st).kids|;
    if isObject {
      TreeName(it.value, Spelled(it.title), []);
    } else {
      TreeName(it.value, [], Decimal(k));
    }
  }

  /** One member. */
  lemma {:induction false} ItemRuns(src: Str, size: int, p: nat, st: State, isObject: bool, it: Item)
    requires st.stack != [] && st.name == [] && Top(st).kind == KindOf(isObject) && ItemOk(isObject, it)
    requires Reads(src, p, LabelText(isObject, it)) && Reads(src, p + |LabelText(isObject, it)|, DocText(it.value))
    requires var q := p + |LabelText(isObject, it)| + |DocText(it.value)|; Behind(src, q, it.value) && Room(size, q)
    ensures Run(src, size, p, st) == Run(src, size, p + |LabelText(isObject, it)| + |DocText(it.value)|,
                                         WithMore(st, [DocTree(it.value, ItemName(isObject, it, |Top(st).kids|))]))
    decreases it, 0
  {
    hide Run, OneStep, Reads, DocText, LabelText, DocTree, DocOk, ItemOk, ItemName, WithMore, Into, Ready, Gap, Blank, Spelled, SpotsOk, Peek, Decimal;
    IntoMore(st, isObject, it);
    var q := p + |LabelText(isObject, it)|;
    ItemIs(isObject, it);
    DocBegins(it.value);
    ReadsFirst(src, q, DocText(it.value));
    var named := if isObject then st.(name := Spelled(it.title)) else st;
    if isObject { LabelRuns(src, size, p, st, it); }
    DocRuns(src, size, q, named, it.value);
  }

  lemma ItemIs(isObject: bool, it: Item)
    requires ItemOk(isObject, it)
    ensures DocOk(it.value) && if isObject then SpotsOk(it.title) && Gap(it.named) && Gap(it.colon) else LabelText(isObject, it) == []
  {
    hide DocOk, Gap;
  }

  lemma NoItems(st: State, isObject: bool, k: nat)
    requires st.stack != []
    ensures ItemsText(isObject, []) == [] && WithMore(st, ItemTrees(isObject, [], k)) == st
  {
    WithMoreNone(st);
  }

  /** The members of a container. */
  lemma {:induction false} ItemsRun(src: Str, size: int, p: nat, st: State, isObject: bool, items: seq<Item>)
    requires ItemsNext(src, p, st, isObject, items) && Room(size, p + |ItemsText(isObject, items)|)
    ensures Run(src, size, p, st) ==
            Run(src, size, p + |ItemsText(isObject, items)|, WithMore(st, ItemTrees(isObject, items, |Top(st).kids|)))
    decreases items, 1
  {
    hide Run, OneStep, Reads, ItemsText, DocText, LabelText, ItemTrees, DocTree, ItemOk, ItemName, ItemsNext, WithMore, Gap, Peek, Blank, Behind, Decimal;
    ItemsNow(src, p, st, isObject, items);
    var k := |Top(st).kids|;
    if items == [] {
      NoItems(st, isObject, k);
    } else {
      var it, more := items[0], items[1..];
      ItemIs(isObject, it);
      var kid := DocTree(it.value, ItemName(isObject, it, k));
      var added := WithMore(st, [kid]);
      var q := p + |LabelText(isObject, it)| + |DocText(it.value)|;
      ItemParts(src, p, isObject, items);
      ItemBehind(src, p, st, isObject, items);
      ItemTreesStep(isObject, items, k);
      WithMoreOn(st, [kid], ItemTrees(isObject, more, k + 1));
      ItemRuns(src, size, p, st, isObject, it);
      if more == [] {
        NoItems(added, isObject, k + 1);
      } else {
        MoreItems(src, p, st, isObject, items, added);
        CommaRuns(src, size, q, added, it.comma);
        ItemsRun(src, size, q + 1 + |it.comma|, added, isObject, more);
      }
    }
  }

  lemma CommaRuns(src: Str, size: int, p: nat, st: State, gap: Str)
    requires st.stack != [] && Reads(src, p, [',' as int]) && Reads(src, p + 1, gap) && Gap(gap)
    requires !Blank(Peek(src, p + 1 + |gap|)) && Room(size, p + 1)
    ensures Run(src, size, p, st) == Run(src, size, p + 1 + |gap|, st)
  {
    hide Run, OneStep, Reads, Gap, Blank;
    CommaStep(src, p, st);
    TokenRuns(src, size, p, st, p + 1, st, gap);
  }

  // ------------------------------------------------------------ whole texts

  /** Nothing is read from p on: the text or the size is at an end. */
  predicate Ended(src: Str, size: int, p: nat) {
    Peek(src, p) == 0 || 0 <= size <= p
  }

  /** Every text of a container is read to its tree. */
  lemma DocParses(d: Doc, more: Str, size: int)
    requires d.BoxDoc? && DocOk(d) && (more == [] || !Blank(more[0])) && Room(size, |DocText(d)|)
    requires more == [] || more[0] == 0 || size == |DocText(d)|
    ensures Parsed(DocText(d) + more, size) == Tree(DocTree(d, []))
  {
    hide Run, DocOk, DocText, Reads, Gap, Blank, ItemTrees;
    var src := DocText(d) + more;
    ReadsPrefix(DocText(d), more);
    PeekBehind(DocText(d), more);
    BoxRuns(src, size, 0, START, d);
    RootIs(d);
    RunEnds(src, size, |DocText(d)|, Close(Full(START, d)));
  }

  lemma PeekBehind(a: Str, b: Str)
    ensures Peek(a + b, |a|) == Peek(b, 0) && (b == [] ==> !Blank(Peek(b, 0)))
  {
  }

  lemma RootIs(d: Doc)
    requires d.BoxDoc? && DocOk(d)
    ensures var st := Close(Full(START, d)); st.stack == [] && st.root == Some(DocTree(d, []))
  {
    hide ItemTrees, Gap;
  }

  lemma RunEnds(src: Str, size: int, p: nat, st: State)
    requires Ended(src, size, p)
    ensures Run(src, size, p, st) == Next(p, st)
  {
  }

  // ---------------------------------------------------------------- refusals

  lemma TitleRuns(src: Str, size: int, p: nat, st: State, xs: seq<Spot>, named: Str)
    requires st.stack != [] && st.name == [] && Top(st).kind == Object && SpotsOk(xs) && Gap(named)
    requires Reads(src, p, ['"' as int] + Spelling(xs) + ['"' as int] + named)
    requires var q := p + |Spelling(xs)| + 2 + |named|; !Blank(Peek(src, q)) && Room(size, q)
    ensures Run(src, size, p, st) == Run(src, size, p + |Spelling(xs)| + 2 + |named|, st.(name := Spelled(xs)))
  {
    hide OneStep, Run, Reads, Gap, Blank, Spelling, Spelled, SpotsOk, Peek;
    ReadsBoth(src, p, ['"' as int] + Spelling(xs) + ['"' as int], named);
    TitleStep(src, p, st, xs);
    TokenRuns(src, size, p, st, p + |Spelling(xs)| + 2, st.(name := Spelled(xs)), named);
  }

  /** What there is of a label leaves the stack as it is. */
  lemma StartRuns(src: Str, size: int, p: nat, st: State, x: Start) returns (st': State)
    requires st.stack != [] && st.name == [] && (x.NoLabel? || Top(st).kind == Object) && StartOk(x)
    requires Reads(src, p, StartText(x))
    requires var q := p + |StartText(x)|; !Blank(Peek(src, q)) && Room(size, q)
    ensures Run(src, size, p, st) == Run(src, size, p + |StartText(x)|, st') && st' == st.(name := st'.name)
  {
    hide Run, Reads, Gap, Blank, Spelling, Spelled, SpotsOk, LabelText, Peek;
    st' := st;
    match x {
      case NoLabel =>
      case Titled(xs, named) =>
        TitleRuns(src, size, p, st, xs, named);
        st' := st.(name := Spelled(xs));
      case Labelled(it) =>
        LabelRuns(src, size, p, st, it);
        st' := st.(name := Spelled(it.title));
    }
  }

  lemma CommaMaybe(src: Str, size: int, p: nat, st: State, comma: Option<Str>)
    requires st.stack != [] && Reads(src, p, CommaText(comma)) && (comma.Some? ==> Gap(comma.value))
    requires var q := p + |CommaText(comma)|; !Blank(Peek(src, q)) && Room(size, q)
    ensures Run(src, size, p, st) == Run(src, size, p + |CommaText(comma)|, st)
  {
    hide Run, Reads, Gap, Blank, Peek;
    if comma.Some? {
      ReadsBoth(src, p, [',' as int], comma.value);
      CommaRuns(src, size, p, st, comma.value);
    }
  }

  lemma LevelTextIs(l: Level)
    ensures LevelText(l) == [Opening(l.isObject)] + l.inner + ItemsText(l.isObject, l.items) + CommaText(l.comma) + StartText(l.start)
  {
    hide ItemsText, CommaText, StartText;
  }

  /** Where the parts of an unfinished container are, and what is behind each of them. */
  lemma LevelParts(src: Str, p: nat, l: Level)
    requires LevelOk(l) && Reads(src, p, LevelText(l)) && NextOk(src, p + |LevelText(l)|, l)
    ensures var items := p + 1 + |l.inner|;
            var comma := items + |ItemsText(l.isObject, l.items)|;
            var start := comma + |CommaText(l.comma)|;
            && Peek(src, p) == Opening(l.isObject) && Reads(src, p + 1, l.inner) && !Blank(Peek(src, items))
            && Reads(src, items, ItemsText(l.isObject, l.items)) && BehindItems(src, comma, l.items)
            && Reads(src, comma, CommaText(l.comma)) && !Blank(Peek(src, start))
            && Reads(src, start, StartText(l.start)) && p + |LevelText(l)| == start + |StartText(l.start)|
  {
    hide Reads, LevelText, LevelOk, ItemsText, CommaText, StartText, NextOk, Blank, BehindItems, Opening, Peek;
    var items, comma, start := ItemsText(l.isObject, l.items), CommaText(l.comma), StartText(l.start);
    var a: Str := [Opening(l.isObject)];
    LevelTextIs(l);
    ReadsAll(src, p, a + l.inner + items, comma, start);
    ReadsAll(src, p, a, l.inner, items);
    ReadsFirst(src, p, a);
    LevelMarks(src, p + 1 + |l.inner|, l);
  }

  /** Behind each part there is no blank. */
  lemma LevelMarks(src: Str, p: nat, l: Level)
    requires LevelOk(l) && Reads(src, p, ItemsText(l.isObject, l.items))
    requires var comma := p + |ItemsText(l.isObject, l.items)|;
             var start := comma + |CommaText(l.comma)|;
             Reads(src, comma, CommaText(l.comma)) && Reads(src, start, StartText(l.start)) && NextOk(src, start + |StartText(l.start)|, l)
    ensures var comma := p + |ItemsText(l.isObject, l.items)|;
            !Blank(Peek(src, p)) && BehindItems(src, comma, l.items) && !Blank(Peek(src, comma + |CommaText(l.comma)|))
  {
    hide ItemsText, ItemOk, Reads, LevelOk, StartText, CommaText, NextOk, Blank, BehindItems, Peek, Gap, StartOk;
    LevelIs(l);
    var comma := p + |ItemsText(l.isObject, l.items)|;
    StartMark(src, comma + |CommaText(l.comma)|, l);
    CommaMark(src, comma, l);
    if l.items != [] {
      ItemBegins(l.isObject, l.items);
      ReadsFirst(src, p, ItemsText(l.isObject, l.items));
    } else {
      NoItems(State(None, [], [Frame(Null, [], [])]), l.isObject, 0);
      BehindSolidItems(src, comma, l.items);
    }
  }

  lemma BehindSolidItems(src: Str, q: nat, items: seq<Item>)
    requires BehindItems(src, q, items)
    ensures !Blank(Peek(src, q))
  {
  }

  lemma StartMark(src: Str, q: nat, l: Level)
    requires LevelOk(l) && Reads(src, q, StartText(l.start)) && NextOk(src, q + |StartText(l.start)|, l)
    ensures NextOk(src, q, l)
  {
    hide ItemOk, Gap, SpotsOk, Spelling, Reads, Tight;
    if !l.start.NoLabel? { ReadsFirst(src, q, StartText(l.start)); }
  }

  lemma CommaMark(src: Str, q: nat, l: Level)
    requires Reads(src, q, CommaText(l.comma)) && NextOk(src, q + |CommaText(l.comma)|, l)
    ensures BehindItems(src, q, l.items) && !Blank(Peek(src, q + |CommaText(l.comma)|))
  {
    hide Reads;
    if l.comma.Some? { ReadsFirst(src, q, CommaText(l.comma)); }
  }

  /** Behind the innermost container there is no blank, and a number at its end is finished. */
  predicate NextOk(src: Str, q: nat, l: Level) {
    !Blank(Peek(src, q)) && (Tight(l) ==> Peek(src, q) in {',' as int, ']' as int, '}' as int})
  }

  /** The opening bracket and the members of a container. */
  lemma InsideRuns(src: Str, size: int, p: nat, st: State, l: Level) returns (full: State)
    requires LevelOk(l) && Peek(src, p) == Opening(l.isObject) && Reads(src, p + 1, l.inner) && !Blank(Peek(src, p + 1 + |l.inner|))
    requires Reads(src, p + 1 + |l.inner|, ItemsText(l.isObject, l.items)) && (st.stack == [] ==> st.root.None?)
    requires var q := p + 1 + |l.inner| + |ItemsText(l.isObject, l.items)|; BehindItems(src, q, l.items) && Room(size, q)
    ensures Run(src, size, p, st) == Run(src, size, p + 1 + |l.inner| + |ItemsText(l.isObject, l.items)|, full)
    ensures full.root == st.root && full.name == [] && |full.stack| == |st.stack| + 1 && Top(full).kind == KindOf(l.isObject)
  {
    hide Run, OneStep, LevelOk, ItemsText, Gap, Blank, BehindItems, Reads, ItemOk, StartOk, Peek, ItemTrees, WithMore, Opening;
    LevelIs(l);
    var inside := Open(st, KindOf(l.isObject));
    OpenStep(src, p, st, l.isObject);
    OpeningNow(src, p, l.isObject);
    TokenRuns(src, size, p, st, p + 1, inside, l.inner);
    var q := p + 1 + |l.inner|;
    ItemsAre(src, q, inside, l.isObject, l.items);
    ItemsRun(src, size, q, inside, l.isObject, l.items);
    full := WithMore(inside, ItemTrees(l.isObject, l.items, 0));
    MoreKeeps(inside, ItemTrees(l.isObject, l.items, 0));
  }

  /** One more container is open. */
  lemma LevelRuns(src: Str, size: int, p: nat, st: State, l: Level) returns (st': State)
    requires LevelOk(l) && Reads(src, p, LevelText(l)) && NextOk(src, p + |LevelText(l)|, l) && Room(size, p + |LevelText(l)|)
    requires st.stack == [] ==> st.root.None?
    ensures Run(src, size, p, st) == Run(src, size, p + |LevelText(l)|, st')
    ensures st'.root == st.root && |st'.stack| == |st.stack| + 1 && Top(st').kind == KindOf(l.isObject)
  {
    hide Run, OneStep, LevelText, LevelOk, ItemsText, CommaText, StartText, Gap, Blank, BehindItems, Reads, ItemOk, StartOk, Opening, Peek, Tight;
    LevelParts(src, p, l);
    LevelIs(l);
    var q := p + 1 + |l.inner| + |ItemsText(l.isObject, l.items)|;
    var full := InsideRuns(src, size, p, st, l);
    CommaMaybe(src, size, q, full, l.comma);
    st' := StartRuns(src, size, q + |CommaText(l.comma)|, full, l.start);
  }

  lemma MoreKeeps(st: State, kids: seq<Json>)
    requires st.stack != []
    ensures var s := WithMore(st, kids);
            s.root == st.root && s.name == st.name && |s.stack| == |st.stack| && Top(s).kind == Top(st).kind
  {
  }

  lemma OpeningNow(src: Str, p: nat, isObject: bool)
    requires Peek(src, p) == Opening(isObject)
    ensures Peek(src, p) != 0
  {
  }

  lemma LevelIs(l: Level)
    requires LevelOk(l)
    ensures Gap(l.inner) && (l.comma.Some? ==> Gap(l.comma.value)) && StartOk(l.start) && (l.start.NoLabel? || l.isObject)
    ensures forall i :: 0 <= i < |l.items| ==> ItemOk(l.isObject, l.items[i])
  {
  }

  /** Unfinished containers are next, from the start of the text on; behind them there is no
      blank, and a number at their end is finished. */
  predicate OpenNext(src: Str, levels: seq<Level>) {
    && OpenOk(levels) && Reads(src, 0, OpenText(levels))
    && (levels != [] ==> NextOk(src, |OpenText(levels)|, levels[|levels| - 1]))
  }

  lemma OpenParts(src: Str, levels: seq<Level>)
    requires levels != [] && OpenNext(src, levels)
    ensures var before, l := levels[..|levels| - 1], levels[|levels| - 1];
            && OpenNext(src, before) && LevelOk(l) && Reads(src, |OpenText(before)|, LevelText(l))
            && |OpenText(levels)| == |OpenText(before)| + |LevelText(l)| && NextOk(src, |OpenText(levels)|, l)
  {
    hide LevelText, LevelOk, Reads, Tight;
    var before, l := levels[..|levels| - 1], levels[|levels| - 1];
    ReadsBoth(src, 0, OpenText(before), LevelText(l));
    LevelBegins(l);
    ReadsFirst(src, |OpenText(before)|, LevelText(l));
    if before != [] { assert before[|before| - 1] == levels[|levels| - 2]; }
  }

  lemma LevelBegins(l: Level)
    ensures LevelText(l) != [] && LevelText(l)[0] == Opening(l.isObject)
  {
    hide ItemsText, CommaText, StartText;
  }

  /** After unfinished containers they are all on the stack. */
  lemma {:induction false} OpenRuns(src: Str, size: int, levels: seq<Level>) returns (st: State)
    requires OpenNext(src, levels) && Room(size, |OpenText(levels)|)
    ensures Run(src, size, 0, START) == Run(src, size, |OpenText(levels)|, st)
    ensures st.root.None? && |st.stack| == |levels|
    ensures levels != [] ==> Top(st).kind == KindOf(levels[|levels| - 1].isObject)
  {
    hide Run, LevelText, LevelOk, Reads, NextOk, OpenNext;
    if levels == [] {
      st := START;
    } else {
      OpenParts(src, levels);
      var before := OpenRuns(src, size, levels[..|levels| - 1]);
      st := LevelRuns(src, size, |OpenText(levels[..|levels| - 1])|, before, levels[|levels| - 1]);
    }
  }

  // ------------------------------------------------------ what is refused

  lemma FailsAt(src: Str, size: int, p: nat, st: State)
    requires Run(src, size, 0, START) == Run(src, size, p, st) && Peek(src, p) != 0 && OneStep(src, p, st) == Fail && Room(size, p + 1)
    ensures Parsed(src, size) == NoTree
  {
    hide OneStep;
  }

  /** The text goes on behind the unfinished containers with c. */
  predicate GoesOn(src: Str, size: int, levels: seq<Level>, c: int) {
    && OpenNext(src, levels) && Room(size, |OpenText(levels)| + 1) && Peek(src, |OpenText(levels)|) == c && c != 0
  }

  /** Whether the text is in an object, or in an array. */
  predicate Within(levels: seq<Level>, isObject: bool) {
    levels != [] && levels[|levels| - 1].isObject == isObject
  }

  /** A closing bracket that is not that of the innermost container. */
  lemma MismatchRefused(src: Str, size: int, levels: seq<Level>, isObject: bool)
    requires GoesOn(src, size, levels, if isObject then '}' as int else ']' as int) && !Within(levels, isObject)
    ensures Parsed(src, size) == NoTree
  {
    hide Run, OpenNext, Parsed;
    var st := OpenRuns(src, size, levels);
    FailsAt(src, size, |OpenText(levels)|, st);
  }

  /** A colon that is not in an object. */
  lemma ColonRefused(src: Str, size: int, levels: seq<Level>)
    requires GoesOn(src, size, levels, ':' as int) && !Within(levels, true)
    ensures Parsed(src, size) == NoTree
  {
    hide Run, OpenNext, Parsed;
    var st := OpenRuns(src, size, levels);
    FailsAt(src, size, |OpenText(levels)|, st);
  }

  /** The text ends in a container. */
  lemma UnclosedRefused(src: Str, size: int, levels: seq<Level>)
    requires OpenNext(src, levels) && levels != [] && Room(size, |OpenText(levels)|) && Ended(src, size, |OpenText(levels)|)
    ensures Parsed(src, size) == NoTree
  {
    hide Run, OpenNext;
    var st := OpenRuns(src, size, levels);
    RunEnds(src, size, |OpenText(levels)|, st);
  }

  /** Something that is in no container: whatever the text begins with but an opening bracket. */
  lemma BareRefused(src: Str, size: int)
    requires Peek(src, 0) != 0 && Room(size, 1) && src[0] != '{' as int && src[0] != '[' as int
    ensures Parsed(src, size) == NoTree
  {
    hide Run, Parsed;
    FailsAt(src, size, 0, START);
  }

  /** Anything behind the container, another one included. */
  lemma SecondRefused(d: Doc, c: Byte, more: Str, size: int)
    requires d.BoxDoc? && DocOk(d) && !Blank(c) && c != 0 && Room(size, |DocText(d)| + 1)
    ensures Parsed(DocText(d) + [c] + more, size) == NoTree
  {
    hide Run, DocOk, DocText, Reads, Gap, Blank, Parsed, OneStep, Close, DocTree, ItemTrees;
    var src := DocText(d) + [c] + more;
    var st := Close(Full(START, d));
    Assoc(DocText(d), [c], more);
    ReadsPrefix(DocText(d), [c] + more);
    PeekBehind(DocText(d), [c] + more);
    BoxRuns(src, size, 0, START, d);
    RootIs(d);
    OutsideFails(src, |DocText(d)|, st);
    FailsAt(src, size, |DocText(d)|, st);
  }

  lemma OutsideFails(src: Str, p: nat, st: State)
    requires Peek(src, p) != 0 && st.stack == [] && st.root.Some?
    ensures OneStep(src, p, st) == Fail
  {
  }

  /** A text without any token. */
  lemma NothingRefused(src: Str, size: int)
    requires Ended(src, size, 0)
    ensures Parsed(src, size) == NoTree
  {
  }

  /** A word that is none of the three, and a character that no token begins with. */
  lemma StrangeRefused(src: Str, size: int, levels: seq<Level>, c: int)
    requires GoesOn(src, size, levels, c) && levels != []
    requires c !in {'{' as int, '}' as int, '[' as int, ']' as int, ':' as int, ',' as int, '"' as int, '-' as int}
    requires !('0' as int <= c <= '9' as int)
    requires var q := |OpenText(levels)|; !Reads(src, q, NULL_WORD) && !Reads(src, q, TRUE_WORD) && !Reads(src, q, FALSE_WORD)
    ensures Parsed(src, size) == NoTree
  {
    hide Run, OpenNext, Parsed, OpenText;
    var st := OpenRuns(src, size, levels);
    FailsAt(src, size, |OpenText(levels)|, st);
  }

  /** A string that breaks off: its characters are followed neither by a quote nor by the end. */
  lemma StringRefused(src: Str, size: int, levels: seq<Level>)
    requires GoesOn(src, size, levels, '"' as int) && levels != []
    requires forall xs :: var q := |OpenText(levels)| + 1;
               SpotsOk(xs) && Reads(src, q, Spelling(xs)) ==> Peek(src, q + |Spelling(xs)|) != '"' as int && Peek(src, q + |Spelling(xs)|) != 0
    ensures Parsed(src, size) == NoTree
  {
    var p := |OpenText(levels)|;
    hide Run, OpenNext, Parsed, OpenText, Legal, Spelling, Reads, SpotsOk, ReadString;
    var st := OpenRuns(src, size, levels);
    var s := ReadString(src, p + 1, []);
    if s.Token? {
      var t := ReadIsSpelled(src, p + 1, [], s.val, s.pos);
      var xs := LegalSpelling(t);
    }
    FailsAt(src, size, p, st);
  }
}
