/** The digits of geohashes, the bits in them, and the tables of neighbouring digits. */
module GeoDigits {
  import opened Bytes

  const BASE32 := "0123456789bcdefghjkmnpqrstuvwxyz"

  datatype Dir = Right | Left | Top | Bottom

  /** string::find: the first place of c, or -1. */
  function Find(s: string, c: char): (i: int)
    ensures i == -1 ==> c !in s
    ensures i != -1 ==> 0 <= i < |s| && s[i] == c && c !in s[..i]
    decreases |s|
  {
    if s == "" then -1
    else
      var n := |s| - 1;
      var i := Find(s[..n], c);
      assert s == s[..n] + [s[n]];
      if i >= 0 then (assert s[..n][..i] == s[..i]; i) else if s[n] == c then n else -1
  }

  /** The value of a digit, 32 for what is none. */
  function Value(c: char): (d: nat)
    ensures d <= 32
  {
    match c
    case '0' => 0 case '1' => 1 case '2' => 2 case '3' => 3 case '4' => 4 case '5' => 5 case '6' => 6 case '7' => 7
    case '8' => 8 case '9' => 9 case 'b' => 10 case 'c' => 11 case 'd' => 12 case 'e' => 13 case 'f' => 14 case 'g' => 15
    case 'h' => 16 case 'j' => 17 case 'k' => 18 case 'm' => 19 case 'n' => 20 case 'p' => 21 case 'q' => 22 case 'r' => 23
    case 's' => 24 case 't' => 25 case 'u' => 26 case 'v' => 27 case 'w' => 28 case 'x' => 29 case 'y' => 30 case 'z' => 31
    case _ => 32
  }

  predicate IsDigit(c: char) {
    Value(c) < 32
  }

  lemma DigitValue(i: nat)
    requires i < 32
    ensures |BASE32| == 32 && Value(BASE32[i]) == i
  {
  }

  lemma DigitOfValue(c: char)
    requires IsDigit(c)
    ensures BASE32[Value(c)] == c
  {
  }

  /** NEIGHBORS for even lengths, in rows of eight. */
  function NeighborRow(dir: Dir, row: nat): (v: string)
    requires row < 4
    ensures |v| == 8
  {
    match dir
    case Right => if row == 0 then "bc01fg45" else if row == 1 then "238967de" else if row == 2 then "uvhjyznp" else "kmstqrwx"
    case Left => if row == 0 then "238967de" else if row == 1 then "bc01fg45" else if row == 2 then "kmstqrwx" else "uvhjyznp"
    case Top => if row == 0 then "p0r21436" else if row == 1 then "x8zb9dcf" else if row == 2 then "5h7kjnmq" else "esgutwvy"
    case Bottom => if row == 0 then "14365h7k" else if row == 1 then "9dcfesgu" else if row == 2 then "jnmqp0r2" else "twvyx8zb"
  }

  /** At odd lengths the directions change places. */
  function Turned(dir: Dir, even: bool): Dir {
    if even then dir else
      match dir
      case Right => Top
      case Left => Bottom
      case Top => Right
      case Bottom => Left
  }

  /** NEIGHBORS: at the place of a digit in BASE32 stands the digit it is the neighbour of. */
  function Neighbors(dir: Dir, even: bool): (v: string)
    ensures |v| == 32
  {
    var d := Turned(dir, even);
    NeighborRow(d, 0) + NeighborRow(d, 1) + NeighborRow(d, 2) + NeighborRow(d, 3)
  }

  lemma NeighborsAt(dir: Dir, even: bool, row: nat, i: nat)
    requires row < 4 && i < 8
    ensures Neighbors(dir, even)[8 * row + i] == NeighborRow(Turned(dir, even), row)[i]
  {
    hide NeighborRow;
  }

  /** BORDERS: the digits that have no neighbour inside the same square. */
  function Borders(dir: Dir, even: bool): string {
    match Turned(dir, even)
    case Right => "bcfguvyz"
    case Left => "0145hjnp"
    case Top => "prxz"
    case Bottom => "028b"
  }

  type Bit = b: int | 0 <= b < 2

  /** BITS: the weight of the j-th bit of a digit. */
  function Mask(j: nat): (m: nat)
    requires j < 5
    ensures m > 0
  {
    match j case 0 => 16 case 1 => 8 case 2 => 4 case 3 => 2 case _ => 1
  }

  /** cd & BITS[j] */
  function BitOf(d: nat, j: nat): Bit
    requires j < 5
  {
    d / Mask(j) % 2
  }

  /** The digit made of five bits. */
  function Digit(b0: Bit, b1: Bit, b2: Bit, b3: Bit, b4: Bit): (d: nat)
    ensures d < 32
  {
    16 * b0 + 8 * b1 + 4 * b2 + 2 * b3 + b4
  }

  lemma DigitBits(b0: Bit, b1: Bit, b2: Bit, b3: Bit, b4: Bit)
    ensures var d := Digit(b0, b1, b2, b3, b4);
            BitOf(d, 0) == b0 && BitOf(d, 1) == b1 && BitOf(d, 2) == b2 && BitOf(d, 3) == b3 && BitOf(d, 4) == b4
  {
    var d := Digit(b0, b1, b2, b3, b4);
    hide BitOf;
    OneBit(d, 0, 0, b0, 8 * b1 + 4 * b2 + 2 * b3 + b4);
    OneBit(d, 1, b0, b1, 4 * b2 + 2 * b3 + b4);
    OneBit(d, 2, 2 * b0 + b1, b2, 2 * b3 + b4);
    OneBit(d, 3, 4 * b0 + 2 * b1 + b2, b3, b4);
    OneBit(d, 4, 8 * b0 + 4 * b1 + 2 * b2 + b3, b4, 0);
  }

  /** The bit between the bits of more weight and those of less. */
  lemma OneBit(d: nat, j: nat, high: nat, bit: Bit, low: nat)
    requires j < 5 && low < Mask(j) && d == Mask(j) * (2 * high + bit) + low
    ensures BitOf(d, j) == bit
  {
    hide Mask;
    ModUnique(d, Mask(j), 2 * high + bit, low);
    ModUnique(2 * high + bit, 2, high, bit);
  }

  lemma BitsDigit(d: nat)
    requires d < 32
    ensures Digit(BitOf(d, 0), BitOf(d, 1), BitOf(d, 2), BitOf(d, 3), BitOf(d, 4)) == d
  {
    assert d / 16 < 2;
    assert d / 8 == 2 * (d / 16) + d / 8 % 2;
    assert d / 4 == 2 * (d / 8) + d / 4 % 2;
    assert d / 2 == 2 * (d / 4) + d / 2 % 2;
  }

  /** A counter of three bits, or of two, one up or down around its range. */
  datatype Three = Three(b0: Bit, b2: Bit, b4: Bit)
  datatype Two = Two(b1: Bit, b3: Bit)

  function Up3(x: Three): Three {
    if x.b4 == 0 then x.(b4 := 1) else if x.b2 == 0 then x.(b4 := 0, b2 := 1)
    else if x.b0 == 0 then Three(1, 0, 0) else Three(0, 0, 0)
  }

  function Up2(x: Two): Two {
    if x.b3 == 0 then x.(b3 := 1) else if x.b1 == 0 then Two(1, 0) else Two(0, 0)
  }

  function Of(x: Three, y: Two): (d: nat)
    ensures d < 32
  {
    Digit(x.b0, y.b1, x.b2, y.b3, x.b4)
  }

  /** The values of the digits in the tables for even lengths, in rows of eight. */
  function Values(dir: Dir, row: nat): (v: seq<nat>)
    requires row < 4
    ensures |v| == 8
  {
    match dir
    case Right =>
      if row == 0 then [10, 11, 0, 1, 14, 15, 4, 5] else
      if row == 1 then [2, 3, 8, 9, 6, 7, 12, 13] else
      if row == 2 then [26, 27, 16, 17, 30, 31, 20, 21] else
      [18, 19, 24, 25, 22, 23, 28, 29]
    case Left =>
      if row == 0 then [2, 3, 8, 9, 6, 7, 12, 13] else
      if row == 1 then [10, 11, 0, 1, 14, 15, 4, 5] else
      if row == 2 then [18, 19, 24, 25, 22, 23, 28, 29] else
      [26, 27, 16, 17, 30, 31, 20, 21]
    case Top =>
      if row == 0 then [21, 0, 23, 2, 1, 4, 3, 6] else
      if row == 1 then [29, 8, 31, 10, 9, 12, 11, 14] else
      if row == 2 then [5, 16, 7, 18, 17, 20, 19, 22] else
      [13, 24, 15, 26, 25, 28, 27, 30]
    case Bottom =>
      if row == 0 then [1, 4, 3, 6, 5, 16, 7, 18] else
      if row == 1 then [9, 12, 11, 14, 13, 24, 15, 26] else
      if row == 2 then [17, 20, 19, 22, 21, 0, 23, 2] else
      [25, 28, 27, 30, 29, 8, 31, 10]
  }

  lemma RightValues(row: nat, i: nat)
    requires row < 4 && i < 8
    ensures Value(NeighborRow(Right, row)[i]) == Values(Right, row)[i]
  {
  }

  lemma LeftValues(row: nat, i: nat)
    requires row < 4 && i < 8
    ensures Value(NeighborRow(Left, row)[i]) == Values(Left, row)[i]
  {
  }

  lemma TopValues(row: nat, i: nat)
    requires row < 4 && i < 8
    ensures Value(NeighborRow(Top, row)[i]) == Values(Top, row)[i]
  {
  }

  lemma BottomValues(row: nat, i: nat)
    requires row < 4 && i < 8
    ensures Value(NeighborRow(Bottom, row)[i]) == Values(Bottom, row)[i]
  {
  }

  /** The value in the table at the place of a digit. */
  function ValueAt(dir: Dir, x: Three, y: Two): nat {
    Values(dir, 2 * x.b0 + y.b1)[4 * x.b2 + 2 * y.b3 + x.b4]
  }

  /** The neighbour tables: three of the bits, or the two others, count by one. */
  lemma RightCounts(x: Three, y: Two)
    ensures ValueAt(Right, x, Up2(y)) == Of(x, y)
  {
  }

  lemma LeftCounts(x: Three, y: Two)
    ensures ValueAt(Left, x, y) == Of(x, Up2(y))
  {
  }

  lemma TopCounts(x: Three, y: Two)
    ensures ValueAt(Top, Up3(x), y) == Of(x, y)
  {
    hide ValueAt, Of, Up3;
    if x.b4 == 0 { TopCountsEven(x, y); } else if x.b2 == 0 { TopCountsOdd(x, y); } else { TopCountsCarry(x, y); }
  }

  lemma TopCountsEven(x: Three, y: Two)
    requires x.b4 == 0
    ensures ValueAt(Top, Up3(x), y) == Of(x, y)
  {
  }

  lemma TopCountsOdd(x: Three, y: Two)
    requires x.b4 == 1 && x.b2 == 0
    ensures ValueAt(Top, Up3(x), y) == Of(x, y)
  {
  }

  lemma TopCountsCarry(x: Three, y: Two)
    requires x.b4 == x.b2 == 1
    ensures ValueAt(Top, Up3(x), y) == Of(x, y)
  {
  }

  lemma BottomCounts(x: Three, y: Two)
    ensures ValueAt(Bottom, x, y) == Of(Up3(x), y)
  {
    hide ValueAt, Of, Up3;
    if x.b4 == 0 { BottomCountsEven(x, y); } else if x.b2 == 0 { BottomCountsOdd(x, y); } else { BottomCountsCarry(x, y); }
  }

  lemma BottomCountsEven(x: Three, y: Two)
    requires x.b4 == 0
    ensures ValueAt(Bottom, x, y) == Of(Up3(x), y)
  {
  }

  lemma BottomCountsOdd(x: Three, y: Two)
    requires x.b4 == 1 && x.b2 == 0
    ensures ValueAt(Bottom, x, y) == Of(Up3(x), y)
  {
  }

  lemma BottomCountsCarry(x: Three, y: Two)
    requires x.b4 == x.b2 == 1
    ensures ValueAt(Bottom, x, y) == Of(Up3(x), y)
  {
  }

  /** The border tables hold the digits where the count goes around. */
  lemma RightBorder(x: Three, y: Two)
    ensures BASE32[Of(x, y)] in Borders(Right, true) <==> y == Two(1, 1)
  {
    RightDigits(Of(x, y));
    OfBits(x, y);
  }

  lemma LeftBorder(x: Three, y: Two)
    ensures BASE32[Of(x, y)] in Borders(Left, true) <==> y == Two(0, 0)
  {
    LeftDigits(Of(x, y));
    OfBits(x, y);
  }

  lemma TopBorder(x: Three, y: Two)
    ensures BASE32[Of(x, y)] in Borders(Top, true) <==> x == Three(1, 1, 1)
  {
    TopDigits(Of(x, y));
    OfBits(x, y);
  }

  lemma BottomBorder(x: Three, y: Two)
    ensures BASE32[Of(x, y)] in Borders(Bottom, true) <==> x == Three(0, 0, 0)
  {
    BottomDigits(Of(x, y));
    OfBits(x, y);
  }

  lemma OfBits(x: Three, y: Two)
    ensures var d := Of(x, y);
            x == Three(BitOf(d, 0), BitOf(d, 2), BitOf(d, 4)) && y == Two(BitOf(d, 1), BitOf(d, 3))
  {
    hide BitOf, Digit;
    DigitBits(x.b0, y.b1, x.b2, y.b3, x.b4);
  }

  /** The digits in a border table are those whose turned bits are all alike. */
  lemma RightDigits(d: nat)
    requires d < 32
    ensures BASE32[d] in Borders(Right, true) <==> BitOf(d, 1) == BitOf(d, 3) == 1
  {
    DigitValue(d);
    assert BASE32[d] in Borders(Right, true) <==> d in {10, 11, 14, 15, 26, 27, 30, 31};
  }

  lemma LeftDigits(d: nat)
    requires d < 32
    ensures BASE32[d] in Borders(Left, true) <==> BitOf(d, 1) == BitOf(d, 3) == 0
  {
    DigitValue(d);
    assert BASE32[d] in Borders(Left, true) <==> d in {0, 1, 4, 5, 16, 17, 20, 21};
  }

  lemma TopDigits(d: nat)
    requires d < 32
    ensures BASE32[d] in Borders(Top, true) <==> BitOf(d, 0) == BitOf(d, 2) == BitOf(d, 4) == 1
  {
    DigitValue(d);
    assert BASE32[d] in Borders(Top, true) <==> d in {21, 23, 29, 31};
  }

  lemma BottomDigits(d: nat)
    requires d < 32
    ensures BASE32[d] in Borders(Bottom, true) <==> BitOf(d, 0) == BitOf(d, 2) == BitOf(d, 4) == 0
  {
    DigitValue(d);
    assert BASE32[d] in Borders(Bottom, true) <==> d in {0, 2, 8, 10};
  }
}
