/** Neighbouring geohashes: a step in one direction adds or subtracts one, around its range, to
    one of the two numbers whose bits are interleaved in the digits. */
module GeoAdjacent {
  import opened Bytes
  import opened GeoDigits

  predicate IsHash(h: string) {
    forall i :: 0 <= i < |h| ==> IsDigit(h[i])
  }

  /** bkGeoHashAdjacent */
  function Adjacent(hash: string, dir: Dir): string {
    if hash == "" then ""
    else
      var n := |hash| - 1;
      var last, even := hash[n], |hash| % 2 == 0;
      var base := if last in Borders(dir, even) then Adjacent(hash[..n], dir) else hash[..n];
      var cd := Find(Neighbors(dir, even), last);
      if cd != -1 then base + [BASE32[cd]] else base
  }

  // ------------------------------------------------------- one digit further

  function ThreeOf(d: nat): Three {
    Three(BitOf(d, 0), BitOf(d, 2), BitOf(d, 4))
  }

  function TwoOf(d: nat): Two {
    Two(BitOf(d, 1), BitOf(d, 3))
  }

  function Down3(x: Three): (z: Three)
    ensures Up3(z) == x
  {
    if x.b4 == 1 then x.(b4 := 0) else if x.b2 == 1 then x.(b4 := 1, b2 := 0)
    else if x.b0 == 1 then Three(0, 1, 1) else Three(1, 1, 1)
  }

  function Down2(y: Two): (z: Two)
    ensures Up2(z) == y
  {
    if y.b3 == 1 then y.(b3 := 0) else if y.b1 == 1 then Two(0, 1) else Two(1, 1)
  }

  lemma PartsOf(x: Three, y: Two)
    ensures ThreeOf(Of(x, y)) == x && TwoOf(Of(x, y)) == y
  {
    DigitBits(x.b0, y.b1, x.b2, y.b3, x.b4);
  }

  lemma OfParts(d: nat)
    requires d < 32
    ensures Of(ThreeOf(d), TwoOf(d)) == d
  {
    BitsDigit(d);
  }

  lemma SameDigit(c: char, d: char)
    requires IsDigit(c) && Value(c) == Value(d)
    ensures c == d
  {
    DigitOfValue(c);
    DigitOfValue(d);
  }

  /** The bits of the digit whose neighbour in a turned direction has the bits x and y. */
  function Source(t: Dir, x: Three, y: Two): (r: (Three, Two)) {
    match t
    case Right => (x, Down2(y))
    case Left => (x, Up2(y))
    case Top => (Down3(x), y)
    case Bottom => (Up3(x), y)
  }

  /** And the other way around. */
  function Target(t: Dir, x: Three, y: Two): (r: (Three, Two)) {
    match t
    case Right => (x, Up2(y))
    case Left => (x, Down2(y))
    case Top => (Up3(x), y)
    case Bottom => (Down3(x), y)
  }

  lemma ThereAndBack(t: Dir, x: Three, y: Two)
    ensures var r := Target(t, x, y); Source(t, r.0, r.1) == (x, y)
    ensures var s := Source(t, x, y); Target(t, s.0, s.1) == (x, y)
  {
  }

  lemma EntryValue(t: Dir, row: nat, i: nat)
    requires row < 4 && i < 8
    ensures Value(NeighborRow(t, row)[i]) == Values(t, row)[i]
  {
    hide NeighborRow, Values, Value;
    match t
    case Right => RightValues(row, i);
    case Left => LeftValues(row, i);
    case Top => TopValues(row, i);
    case Bottom => BottomValues(row, i);
  }

  lemma EntryCounts(t: Dir, x: Three, y: Two)
    ensures var s := Source(t, x, y); ValueAt(t, x, y) == Of(s.0, s.1)
  {
    hide ValueAt, Of;
    match t
    case Right => RightCounts(x, Down2(y));
    case Left => LeftCounts(x, y);
    case Top => TopCounts(Down3(x), y);
    case Bottom => BottomCounts(x, y);
  }

  /** What stands in a neighbour table at the place of the digit with the bits x and y. */
  lemma TableEntry(dir: Dir, even: bool, x: Three, y: Two)
    ensures var s := Source(Turned(dir, even), x, y);
            Value(Neighbors(dir, even)[Of(x, y)]) == Of(s.0, s.1)
  {
    hide NeighborRow, Values, Neighbors, Value, Source, Turned;
    var t, row, i := Turned(dir, even), 2 * x.b0 + y.b1, 4 * x.b2 + 2 * y.b3 + x.b4;
    NeighborsAt(dir, even, row, i);
    EntryValue(t, row, i);
    EntryCounts(t, x, y);
    var s := Source(t, x, y);
    assert Values(t, row)[i] == Of(s.0, s.1);
    assert Of(x, y) == 8 * row + i;
  }

  /** Where a digit is found in a neighbour table. */
  lemma FindNeighbor(dir: Dir, even: bool, c: char)
    requires IsDigit(c)
    ensures var d := Value(c);
            var r := Target(Turned(dir, even), ThreeOf(d), TwoOf(d));
            Find(Neighbors(dir, even), c) == Of(r.0, r.1)
  {
    hide Neighbors, Value, Source, Target, Turned, ThreeOf, TwoOf, Of;
    var d, t, n := Value(c), Turned(dir, even), Neighbors(dir, even);
    OfParts(d);
    var r := Target(t, ThreeOf(d), TwoOf(d));
    ThereAndBack(t, ThreeOf(d), TwoOf(d));
    TableEntry(dir, even, r.0, r.1);
    SameDigit(c, n[Of(r.0, r.1)]);
    assert c in n;
    OnlyEntry(dir, even, c, Find(n, c));
  }

  lemma OnlyEntry(dir: Dir, even: bool, c: char, f: nat)
    requires IsDigit(c) && f < 32 && Neighbors(dir, even)[f] == c
    ensures var d := Value(c);
            var r := Target(Turned(dir, even), ThreeOf(d), TwoOf(d));
            f == Of(r.0, r.1)
  {
    hide Neighbors, Value, Source, Target, Turned, ThreeOf, TwoOf, Of;
    var t := Turned(dir, even);
    OfParts(f);
    TableEntry(dir, even, ThreeOf(f), TwoOf(f));
    var s := Source(t, ThreeOf(f), TwoOf(f));
    PartsOf(s.0, s.1);
    ThereAndBack(t, ThreeOf(f), TwoOf(f));
  }

  /** The digits on a border are those where the count goes around. */
  lemma OnBorder(dir: Dir, even: bool, c: char)
    requires IsDigit(c)
    ensures var x, y := ThreeOf(Value(c)), TwoOf(Value(c));
            c in Borders(dir, even) <==>
            match Turned(dir, even)
            case Right => y == Two(1, 1)
            case Left => y == Two(0, 0)
            case Top => x == Three(1, 1, 1)
            case Bottom => x == Three(0, 0, 0)
  {
    var x, y := ThreeOf(Value(c)), TwoOf(Value(c));
    OfParts(Value(c));
    DigitOfValue(c);
    assert Borders(dir, even) == Borders(Turned(dir, even), true);
    hide Value, Borders;
    match Turned(dir, even)
    case Right => RightBorder(x, y);
    case Left => LeftBorder(x, y);
    case Top => TopBorder(x, y);
    case Bottom => BottomBorder(x, y);
  }

  // ---------------------------------------------------------- coordinates

  function Num3(x: Three): (v: nat)
    ensures v < 8
  {
    4 * x.b0 + 2 * x.b2 + x.b4
  }

  function Num2(y: Two): (v: nat)
    ensures v < 4
  {
    2 * y.b1 + y.b3
  }

  /** How many columns there are for hashes of n digits. */
  function Columns(n: nat): (s: nat)
    ensures s > 0
  {
    if n == 0 then 1 else Columns(n - 1) * (if n % 2 == 0 then 4 else 8)
  }

  /** How many rows. */
  function Rows(n: nat): (s: nat)
    ensures s > 0
  {
    if n == 0 then 1 else Rows(n - 1) * (if n % 2 == 0 then 8 else 4)
  }

  /** The bits of the longitude, which are the first, third, fifth and so on of all the bits. */
  function X(h: string): (x: nat)
    decreases |h|
  {
    if h == "" then 0
    else
      var d := Value(h[|h| - 1]);
      if |h| % 2 == 0 then X(h[..|h| - 1]) * 4 + Num2(TwoOf(d)) else X(h[..|h| - 1]) * 8 + Num3(ThreeOf(d))
  }

  /** The bits of the latitude, which are the others. */
  function Y(h: string): (y: nat)
    decreases |h|
  {
    if h == "" then 0
    else
      var d := Value(h[|h| - 1]);
      if |h| % 2 == 0 then Y(h[..|h| - 1]) * 8 + Num3(ThreeOf(d)) else Y(h[..|h| - 1]) * 4 + Num2(TwoOf(d))
  }

  lemma {:induction false} InRange(h: string)
    ensures X(h) < Columns(|h|) && Y(h) < Rows(|h|)
    decreases |h|
  {
    if h != "" { InRange(h[..|h| - 1]); }
  }

  /** One more, or one less, around s. */
  function Up(v: nat, s: nat): (u: nat)
    requires v < s
    ensures u < s
  {
    if v + 1 == s then 0 else v + 1
  }

  function Down(v: nat, s: nat): (u: nat)
    requires v < s
    ensures u < s
  {
    if v == 0 then s - 1 else v - 1
  }

  lemma AroundIsMod(v: nat, s: nat)
    requires v < s
    ensures Up(v, s) == (v + 1) % s && Down(v, s) == (v - 1) % s
    ensures Up(Down(v, s), s) == v == Down(Up(v, s), s)
  {
    if v == 0 { ModUnique(-1, s, -1, s - 1); } else { ModUnique(v - 1, s, 0, v - 1); }
    if v + 1 == s { ModUnique(v + 1, s, 1, 0); } else { ModUnique(v + 1, s, 0, v + 1); }
  }

  /** A number in two parts counts like its lower part, and the upper part when that goes around. */
  lemma CountParts(upper: nat, s: nat, lower: nat, m: nat)
    requires upper < s && lower < m && (m == 4 || m == 8)
    ensures upper * m + lower < s * m
    ensures Up(upper * m + lower, s * m) == (if lower == m - 1 then Up(upper, s) else upper) * m + Up(lower, m)
    ensures Down(upper * m + lower, s * m) == (if lower == 0 then Down(upper, s) else upper) * m + Down(lower, m)
  {
  }

  lemma CountThree(x: Three)
    ensures Num3(Up3(x)) == Up(Num3(x), 8) && (x == Three(1, 1, 1) <==> Num3(x) == 7)
    ensures Num3(Down3(x)) == Down(Num3(x), 8) && (x == Three(0, 0, 0) <==> Num3(x) == 0)
  {
  }

  lemma CountTwo(y: Two)
    ensures Num2(Up2(y)) == Up(Num2(y), 4) && Num2(Down2(y)) == Down(Num2(y), 4)
  {
    UpTwo(y);
    DownTwo(y);
  }

  lemma UpTwo(y: Two)
    ensures Num2(Up2(y)) == Up(Num2(y), 4)
  {
  }

  lemma DownTwo(y: Two)
    ensures Num2(Down2(y)) == Down(Num2(y), 4)
  {
  }

  lemma EndsOfTwo(y: Two)
    ensures (y == Two(1, 1) <==> Num2(y) == 3) && (y == Two(0, 0) <==> Num2(y) == 0)
  {
  }

  /** Where a step leads. */
  function MovedX(x: nat, columns: nat, dir: Dir): (x': nat)
    requires x < columns
  {
    match dir
    case Right => Up(x, columns)
    case Left => Down(x, columns)
    case _ => x
  }

  function MovedY(y: nat, rows: nat, dir: Dir): (y': nat)
    requires y < rows
  {
    match dir
    case Top => Up(y, rows)
    case Bottom => Down(y, rows)
    case _ => y
  }

  /** Whether a step takes a digit around. */
  predicate Around(t: Dir, x: Three, y: Two) {
    match t
    case Right => Num2(y) == 3
    case Left => Num2(y) == 0
    case Top => Num3(x) == 7
    case Bottom => Num3(x) == 0
  }

  /** A step changes the last digit, and before it what a step from there changes if the digit
      goes around. */
  lemma LastDigit(h: string, dir: Dir)
    requires h != "" && IsHash(h)
    ensures var n, t := |h| - 1, Turned(dir, |h| % 2 == 0);
            var x, y := ThreeOf(Value(h[n])), TwoOf(Value(h[n]));
            var r := Target(t, x, y);
            Adjacent(h, dir) == (if Around(t, x, y) then Adjacent(h[..n], dir) else h[..n]) + [BASE32[Of(r.0, r.1)]]
  {
    hide Value, Neighbors, Borders, Target, Of, BitOf;
    var n, even := |h| - 1, |h| % 2 == 0;
    FindNeighbor(dir, even, h[n]);
    OnBorder(dir, even, h[n]);
    CountThree(ThreeOf(Value(h[n])));
    EndsOfTwo(TwoOf(Value(h[n])));
  }

  /** The longitude of a hash that is one digit longer. */
  function LongerX(upper: nat, even: bool, x: Three, y: Two): nat {
    if even then upper * 4 + Num2(y) else upper * 8 + Num3(x)
  }

  function LongerY(upper: nat, even: bool, x: Three, y: Two): nat {
    if even then upper * 8 + Num3(x) else upper * 4 + Num2(y)
  }

  lemma Longer(h: string, c: char)
    ensures var n, d := |h| + 1, Value(c);
            X(h + [c]) == LongerX(X(h), n % 2 == 0, ThreeOf(d), TwoOf(d)) && Y(h + [c]) == LongerY(Y(h), n % 2 == 0, ThreeOf(d), TwoOf(d))
  {
  }

  lemma LongerMoves(dir: Dir, even: bool, u: nat, columns: nat, v: nat, rows: nat, x: Three, y: Two)
    requires u < columns && v < rows
    ensures var t := Turned(dir, even);
            var r := Target(t, x, y);
            var u', v' := if Around(t, x, y) then MovedX(u, columns, dir) else u, if Around(t, x, y) then MovedY(v, rows, dir) else v;
            var cx, cy := if even then 4 else 8, if even then 8 else 4;
            && LongerX(u, even, x, y) < columns * cx && LongerY(v, even, x, y) < rows * cy
            && LongerX(u', even, r.0, r.1) == MovedX(LongerX(u, even, x, y), columns * cx, dir)
            && LongerY(v', even, r.0, r.1) == MovedY(LongerY(v, even, x, y), rows * cy, dir)
  {
    CountThree(x);
    CountTwo(y);
    hide Num2, Num3, Up, Down, Up2, Up3, Down2, Down3;
    if even {
      CountParts(u, columns, Num2(y), 4);
      CountParts(v, rows, Num3(x), 8);
    } else {
      CountParts(u, columns, Num3(x), 8);
      CountParts(v, rows, Num2(y), 4);
    }
  }

  lemma HashSnoc(h: string, c: char)
    ensures IsHash(h + [c]) <==> IsHash(h) && IsDigit(c)
  {
    assert (h + [c])[|h|] == c;
    forall i | 0 <= i < |h| ensures (h + [c])[i] == h[i] { }
  }

  lemma NoDigits()
    ensures X("") == Y("") == 0 && Columns(0) == Rows(0) == 1
  {
  }

  lemma OneMoreDigit(n: nat)
    requires n > 0
    ensures Columns(n) == Columns(n - 1) * (if n % 2 == 0 then 4 else 8) && Rows(n) == Rows(n - 1) * (if n % 2 == 0 then 8 else 4)
  {
  }

  /** Stepping to a neighbour moves one place along one axis, around the world if need be. */
  lemma {:induction false} AdjacentMoves(h: string, dir: Dir)
    requires IsHash(h)
    ensures var a := Adjacent(h, dir);
            && |a| == |h| && IsHash(a)
            && X(h) < Columns(|h|) && Y(h) < Rows(|h|)
            && X(a) == MovedX(X(h), Columns(|h|), dir)
            && Y(a) == MovedY(Y(h), Rows(|h|), dir)
    decreases |h|
  {
    if h == "" {
      NoDigits();
      assert Adjacent(h, dir) == h;
      return;
    }
    hide Value, Adjacent, Of, BitOf, Turned, Target, Around, LongerX, LongerY, MovedX, MovedY, X, Y, ThreeOf, TwoOf, IsHash, Columns, Rows;
    var n, t := |h| - 1, Turned(dir, |h| % 2 == 0);
    var base, d := h[..n], Value(h[n]);
    assert h == base + [h[n]];
    HashSnoc(base, h[n]);
    AdjacentMoves(base, dir);
    LastDigit(h, dir);
    var r := Target(t, ThreeOf(d), TwoOf(d));
    var c := BASE32[Of(r.0, r.1)];
    PartsOf(r.0, r.1);
    DigitValue(Of(r.0, r.1));
    OneMoreDigit(|h|);
    LongerMoves(dir, |h| % 2 == 0, X(base), Columns(n), Y(base), Rows(n), ThreeOf(d), TwoOf(d));
    Longer(base, h[n]);
    Longer(base, c);
    Longer(Adjacent(base, dir), c);
    HashSnoc(base, c);
    HashSnoc(Adjacent(base, dir), c);
  }
}
