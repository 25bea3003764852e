/** Geohashes as boxes on the map: each bit halves the box. Coordinates are exact. */
module GeoBox {
  import opened GeoDigits
  import opened GeoAdjacent

  datatype Box = Box(lat0: real, lat1: real, lon0: real, lon1: real)

  const WORLD := Box(-90.0, 90.0, -180.0, 180.0)

  /** The half of a box, in longitude or in latitude. */
  function Halve(b: Box, even: bool, upper: bool): Box {
    if even then
      var mid := (b.lon0 + b.lon1) / 2.0;
      if upper then b.(lon0 := mid) else b.(lon1 := mid)
    else
      var mid := (b.lat0 + b.lat1) / 2.0;
      if upper then b.(lat0 := mid) else b.(lat1 := mid)
  }

  /** Whether the j-th bit of a digit is about the longitude. */
  predicate EvenBit(even: bool, j: nat) {
    even == (j % 2 == 0)
  }

  /** The box after the first j bits of a digit. */
  function HalveBits(b: Box, even: bool, d: nat, j: nat): Box
    requires j <= 5
  {
    if j == 0 then b else Halve(HalveBits(b, even, d, j - 1), EvenBit(even, j - 1), BitOf(d, j - 1) == 1)
  }

  /** The bits that are taken for a character; what is no digit counts as all ones. */
  function Code(c: char): (d: nat)
    ensures d < 32
  {
    var cd := Find(BASE32, c);
    if cd == -1 then 31 else cd
  }

  function BoxOf(h: string): Box
    decreases |h|
  {
    if h == "" then WORLD
    else
      var n := |h| - 1;
      HalveBits(BoxOf(h[..n]), n % 2 == 0, Code(h[n]), 5)
  }

  lemma CodeIsValue(c: char)
    requires IsDigit(c)
    ensures Code(c) == Value(c)
  {
    DigitOfValue(c);
    assert c in BASE32;
    DigitValue(Code(c));
  }

  // --------------------------------------------------------------- decoding

  /** The bits of one digit. */
  method Bisect(lat0: real, lat1: real, lon0: real, lon1: real, even: bool, d: nat) returns (rc: Box)
    ensures rc == HalveBits(Box(lat0, lat1, lon0, lon1), even, d, 5)
  {
    hide BitOf;
    rc := Box(lat0, lat1, lon0, lon1);
    var isEven, j := even, 0;
    while j < 5
      invariant 0 <= j <= 5 && isEven == EvenBit(even, j) && rc == HalveBits(Box(lat0, lat1, lon0, lon1), even, d, j)
    {
      if isEven {
        var mid := (rc.lon0 + rc.lon1) / 2.0;
        rc := if BitOf(d, j) == 1 then rc.(lon0 := mid) else rc.(lon1 := mid);
      } else {
        var mid := (rc.lat0 + rc.lat1) / 2.0;
        rc := if BitOf(d, j) == 1 then rc.(lat0 := mid) else rc.(lat1 := mid);
      }
      isEven := !isEven;
      j := j + 1;
    }
  }

  /** bkGeoHashDecode: the centre, and the limits of the box. */
  method Decode(hash: string) returns (rc: seq<real>)
    ensures var b := BoxOf(hash);
            rc == [(b.lat0 + b.lat1) / 2.0, (b.lon0 + b.lon1) / 2.0, b.lat0, b.lat1, b.lon0, b.lon1]
  {
    hide HalveBits;
    var isEven, b, i := true, WORLD, 0;
    while i < |hash|
      invariant 0 <= i <= |hash| && isEven == (i % 2 == 0) && b == BoxOf(hash[..i])
    {
      var cd := Find(BASE32, hash[i]);
      b := Bisect(b.lat0, b.lat1, b.lon0, b.lon1, isEven, if cd == -1 then 31 else cd);
      isEven := !isEven;
      assert hash[..i + 1][..i] == hash[..i];
      i := i + 1;
    }
    assert hash[..|hash|] == hash;
    rc := [(b.lat0 + b.lat1) / 2.0, (b.lon0 + b.lon1) / 2.0, b.lat0, b.lat1, b.lon0, b.lon1];
  }

  // --------------------------------------------------------------- encoding

  /** d | BITS[j] */
  function SetBit(d: nat, j: nat): nat
    requires j < 5
  {
    if BitOf(d, j) == 1 then d else d + Mask(j)
  }

  lemma SetDigit(b0: Bit, b1: Bit, b2: Bit, b3: Bit, b4: Bit, j: nat)
    requires j < 5
    ensures var d := Digit(b0, b1, b2, b3, b4);
            SetBit(d, j) == match j
                            case 0 => Digit(1, b1, b2, b3, b4)
                            case 1 => Digit(b0, 1, b2, b3, b4)
                            case 2 => Digit(b0, b1, 1, b3, b4)
                            case 3 => Digit(b0, b1, b2, 1, b4)
                            case _ => Digit(b0, b1, b2, b3, 1)
  {
    DigitBits(b0, b1, b2, b3, b4);
    hide BitOf;
  }

  lemma SetBitSets(d: nat, j: nat, i: nat)
    requires d < 32 && j < 5 && i < 5
    ensures SetBit(d, j) < 32 && BitOf(SetBit(d, j), i) == if i == j then 1 else BitOf(d, i)
  {
    hide BitOf, SetBit, Digit;
    BitsDigit(d);
    var b0, b1, b2, b3, b4 := BitOf(d, 0), BitOf(d, 1), BitOf(d, 2), BitOf(d, 3), BitOf(d, 4);
    SetDigit(b0, b1, b2, b3, b4, j);
    match j
    case 0 => DigitBits(1, b1, b2, b3, b4);
    case 1 => DigitBits(b0, 1, b2, b3, b4);
    case 2 => DigitBits(b0, b1, 1, b3, b4);
    case 3 => DigitBits(b0, b1, b2, 1, b4);
    case _ => DigitBits(b0, b1, b2, b3, 1);
  }

  /** The point is in the upper half. */
  predicate Above(b: Box, even: bool, lat: real, lon: real) {
    if even then lon > (b.lon0 + b.lon1) / 2.0 else lat > (b.lat0 + b.lat1) / 2.0
  }

  /** The digit whose first j bits lead from the box to the point; its other bits are 0. */
  function Choose(b: Box, even: bool, lat: real, lon: real, j: nat): (d: nat)
    requires j <= 5
  {
    if j == 0 then 0
    else
      var d := Choose(b, even, lat, lon, j - 1);
      if Above(HalveBits(b, even, d, j - 1), EvenBit(even, j - 1), lat, lon) then SetBit(d, j - 1) else d
  }

  lemma {:induction false} ChooseSize(b: Box, even: bool, lat: real, lon: real, j: nat)
    requires j <= 5
    ensures Choose(b, even, lat, lon, j) < 32
    ensures forall i: nat :: j <= i < 5 ==> BitOf(Choose(b, even, lat, lon, j), i) == 0
  {
    hide BitOf, SetBit, Above, HalveBits;
    if j > 0 {
      ChooseSize(b, even, lat, lon, j - 1);
      var d := Choose(b, even, lat, lon, j - 1);
      SetBitSets(d, j - 1, 0);
      forall i: nat | j <= i < 5 ensures BitOf(Choose(b, even, lat, lon, j), i) == 0 { SetBitSets(d, j - 1, i); }
    } else {
      forall i: nat | i < 5 ensures BitOf(0, i) == 0 { ZeroBits(i); }
    }
  }

  lemma ZeroBits(i: nat)
    requires i < 5
    ensures BitOf(0, i) == 0
  {
  }

  /** Digits with the same first j bits. */
  predicate SameBits(d: nat, d': nat, j: nat)
    requires j <= 5
  {
    forall i: nat :: i < j ==> BitOf(d, i) == BitOf(d', i)
  }

  lemma {:induction false} HalveSame(b: Box, even: bool, d: nat, d': nat, j: nat)
    requires j <= 5 && SameBits(d, d', j)
    ensures HalveBits(b, even, d, j) == HalveBits(b, even, d', j)
  {
    hide BitOf, Halve;
    if j > 0 { HalveSame(b, even, d, d', j - 1); }
  }

  /** Taking one more bit: the box is that of the digit with the new bit. */
  lemma ChooseStep(b: Box, even: bool, lat: real, lon: real, j: nat)
    requires j < 5
    ensures var d, d' := Choose(b, even, lat, lon, j), Choose(b, even, lat, lon, j + 1);
            var c := HalveBits(b, even, d, j);
            HalveBits(b, even, d', j + 1) == Halve(c, EvenBit(even, j), Above(c, EvenBit(even, j), lat, lon))
  {
    hide BitOf, SetBit, Halve, Above;
    var d, d' := Choose(b, even, lat, lon, j), Choose(b, even, lat, lon, j + 1);
    ChooseSize(b, even, lat, lon, j);
    SetBitSets(d, j, j);
    forall i: nat | i < j ensures BitOf(d, i) == BitOf(d', i) { SetBitSets(d, j, i); }
    HalveSame(b, even, d, d', j);
  }

  /** The hash of n digits that leads to a point. */
  function Encoded(lat: real, lon: real, n: nat): (h: string)
    ensures |h| == n
  {
    if n == 0 then ""
    else
      var h := Encoded(lat, lon, n - 1);
      ChooseSize(BoxOf(h), (n - 1) % 2 == 0, lat, lon, 5);
      h + [BASE32[Choose(BoxOf(h), (n - 1) % 2 == 0, lat, lon, 5)]]
  }

  lemma EncodedStep(lat: real, lon: real, n: nat)
    ensures var h, h' := Encoded(lat, lon, n), Encoded(lat, lon, n + 1);
            var d := Choose(BoxOf(h), n % 2 == 0, lat, lon, 5);
            && d < 32 && h' == h + [BASE32[d]]
            && BoxOf(h') == HalveBits(BoxOf(h), n % 2 == 0, d, 5)
            && IsDigit(h'[n])
  {
    hide Choose, HalveBits, Value;
    var h, h' := Encoded(lat, lon, n), Encoded(lat, lon, n + 1);
    var d := Choose(BoxOf(h), n % 2 == 0, lat, lon, 5);
    ChooseSize(BoxOf(h), n % 2 == 0, lat, lon, 5);
    assert h'[..n] == h;
    DigitValue(d);
    CodeIsValue(BASE32[d]);
  }

  /** The digits there are to be: 8 by default, and 12 at most. */
  function Precision(p: nat): nat {
    if p == 0 then 8 else if p > 12 then 12 else p
  }

  /** bkGeoHashEncode */
  method Encode(latitude: real, longitude: real, precision: nat) returns (hash: string)
    ensures hash == Encoded(latitude, longitude, Precision(precision))
    ensures |hash| == if precision == 0 then 8 else if precision > 12 then 12 else precision
    ensures -90.0 <= latitude <= 90.0 && -180.0 <= longitude <= 180.0 ==> IsHash(hash) && Holds(BoxOf(hash), latitude, longitude)
  {
    hide Encoded, Choose, HalveBits, BoxOf, BitOf, Holds, IsHash;
    var p := if precision == 0 then 8 else precision;
    if p > 12 { p := 12; }
    var isEven, b, bit, ch := true, WORLD, 0, 0;
    hash := "";
    EncodeStart(latitude, longitude);
    while |hash| < p
      invariant |hash| <= p && 0 <= bit < 5 && ch < 32
      invariant hash == Encoded(latitude, longitude, |hash|) && isEven == EvenBit(|hash| % 2 == 0, bit)
      invariant ch == Choose(BoxOf(hash), |hash| % 2 == 0, latitude, longitude, bit)
      invariant b == HalveBits(BoxOf(hash), |hash| % 2 == 0, ch, bit)
      decreases p - |hash|, 5 - bit
    {
      ghost var even, box := |hash| % 2 == 0, BoxOf(hash);
      ChooseStep(box, even, latitude, longitude, bit);
      ChooseNext(box, even, latitude, longitude, bit);
      if isEven {
        var mid := (b.lon0 + b.lon1) / 2.0;
        if longitude > mid {
          ch := SetBit(ch, bit);
          b := b.(lon0 := mid);
        } else {
          b := b.(lon1 := mid);
        }
      } else {
        var mid := (b.lat0 + b.lat1) / 2.0;
        if latitude > mid {
          ch := SetBit(ch, bit);
          b := b.(lat0 := mid);
        } else {
          b := b.(lat1 := mid);
        }
      }
      isEven := !isEven;
      if bit < 4 {
        bit := bit + 1;
      } else {
        EncodedStep(latitude, longitude, |hash|);
        HalveNone(BoxOf(hash + [BASE32[ch]]), latitude, longitude);
        hash := hash + [BASE32[ch]];
        bit, ch := 0, 0;
      }
    }
    if -90.0 <= latitude <= 90.0 && -180.0 <= longitude <= 180.0 { EncodedHolds(latitude, longitude, p); }
  }

  lemma EncodeStart(lat: real, lon: real)
    ensures Encoded(lat, lon, 0) == "" && BoxOf("") == WORLD
    ensures Choose(WORLD, true, lat, lon, 0) == 0 && HalveBits(WORLD, true, 0, 0) == WORLD
  {
  }

  lemma HalveNone(b: Box, lat: real, lon: real)
    ensures forall even :: HalveBits(b, even, 0, 0) == b && Choose(b, even, lat, lon, 0) == 0
  {
  }

  lemma ChooseNext(b: Box, even: bool, lat: real, lon: real, j: nat)
    requires j < 5
    ensures var d := Choose(b, even, lat, lon, j);
            && Choose(b, even, lat, lon, j + 1) < 32
            && Choose(b, even, lat, lon, j + 1) == if Above(HalveBits(b, even, d, j), EvenBit(even, j), lat, lon) then SetBit(d, j) else d
  {
    ChooseSize(b, even, lat, lon, j + 1);
  }

  // ------------------------------------------------- there and back again

  /** A box on the map, of some width and height. */
  predicate OnMap(b: Box) {
    -90.0 <= b.lat0 < b.lat1 <= 90.0 && -180.0 <= b.lon0 < b.lon1 <= 180.0
  }

  /** The point is in the box: a lower limit belongs to the box on its other side, but at the
      south pole and at longitude -180. */
  predicate Holds(b: Box, lat: real, lon: real) {
    && (b.lat0 < lat || lat == b.lat0 == -90.0) && lat <= b.lat1
    && (b.lon0 < lon || lon == b.lon0 == -180.0) && lon <= b.lon1
  }

  lemma {:induction false} HalvesOnMap(b: Box, even: bool, d: nat, j: nat)
    requires j <= 5 && OnMap(b)
    ensures OnMap(HalveBits(b, even, d, j))
  {
    hide BitOf;
    if j > 0 { HalvesOnMap(b, even, d, j - 1); }
  }

  lemma {:induction false} BoxesOnMap(h: string)
    ensures OnMap(BoxOf(h))
    decreases |h|
  {
    hide HalveBits;
    if h != "" {
      var n := |h| - 1;
      BoxesOnMap(h[..n]);
      HalvesOnMap(BoxOf(h[..n]), n % 2 == 0, Code(h[n]), 5);
    }
  }

  /** Of the two halves of a box that holds a point, the one that is chosen holds it, and the
      other one does not. */
  lemma OneHalf(b: Box, even: bool, upper: bool, lat: real, lon: real)
    requires OnMap(b)
    ensures Holds(Halve(b, even, upper), lat, lon) <==> Holds(b, lat, lon) && upper == Above(b, even, lat, lon)
  {
  }

  lemma {:induction false} ChosenHolds(b: Box, even: bool, lat: real, lon: real, j: nat)
    requires j <= 5 && OnMap(b) && Holds(b, lat, lon)
    ensures Holds(HalveBits(b, even, Choose(b, even, lat, lon, j), j), lat, lon)
  {
    hide Choose, HalveBits, Holds, Halve, Above, OnMap;
    if j > 0 {
      ChosenHolds(b, even, lat, lon, j - 1);
      ChooseStep(b, even, lat, lon, j - 1);
      var d := Choose(b, even, lat, lon, j - 1);
      HalvesOnMap(b, even, d, j - 1);
      var c, e := HalveBits(b, even, d, j - 1), EvenBit(even, j - 1);
      OneHalf(c, e, Above(c, e, lat, lon), lat, lon);
    } else {
      HalveNone(b, lat, lon);
    }
  }

  /** The box of the hash of a point holds the point. */
  lemma {:induction false} EncodedHolds(lat: real, lon: real, n: nat)
    requires -90.0 <= lat <= 90.0 && -180.0 <= lon <= 180.0
    ensures Holds(BoxOf(Encoded(lat, lon, n)), lat, lon) && IsHash(Encoded(lat, lon, n))
  {
    hide Choose, HalveBits, Encoded, BoxOf, IsDigit;
    EncodeStart(lat, lon);
    if n > 0 {
      EncodedHolds(lat, lon, n - 1);
      EncodedStep(lat, lon, n - 1);
      var h := Encoded(lat, lon, n - 1);
      BoxesOnMap(h);
      ChosenHolds(BoxOf(h), (n - 1) % 2 == 0, lat, lon, 5);
    }
  }

  /** The box before the j-th bit, from that after it. */
  lemma HoldsEarlier(b: Box, even: bool, d: nat, j: nat, lat: real, lon: real)
    requires j < 5 && OnMap(b) && Holds(HalveBits(b, even, d, j + 1), lat, lon)
    ensures Holds(HalveBits(b, even, d, j), lat, lon)
    ensures BitOf(d, j) == 1 <==> Above(HalveBits(b, even, d, j), EvenBit(even, j), lat, lon)
  {
    hide BitOf, Holds, Halve, Above, OnMap;
    HalvesOnMap(b, even, d, j);
    OneHalf(HalveBits(b, even, d, j), EvenBit(even, j), BitOf(d, j) == 1, lat, lon);
  }

  lemma {:induction false} HoldsUpTo(b: Box, even: bool, d: nat, i: nat, j: nat, lat: real, lon: real)
    requires i <= j <= 5 && OnMap(b) && Holds(HalveBits(b, even, d, j), lat, lon)
    ensures Holds(HalveBits(b, even, d, i), lat, lon)
    decreases j
  {
    hide HalveBits, Holds, OnMap;
    if i < j {
      HoldsEarlier(b, even, d, j - 1, lat, lon);
      HoldsUpTo(b, even, d, i, j - 1, lat, lon);
    }
  }

  /** A point in the box of a digit is led to that digit. */
  lemma {:induction false} ChosenIs(b: Box, even: bool, d: nat, j: nat, lat: real, lon: real)
    requires j <= 5 && d < 32 && OnMap(b) && Holds(HalveBits(b, even, d, 5), lat, lon)
    ensures SameBits(Choose(b, even, lat, lon, j), d, j) && Choose(b, even, lat, lon, j) < 32
  {
    hide HalveBits, Holds, OnMap, BitOf, SetBit, Above, Choose;
    ChooseSize(b, even, lat, lon, j);
    if j > 0 {
      ChosenIs(b, even, d, j - 1, lat, lon);
      var c, c' := Choose(b, even, lat, lon, j - 1), Choose(b, even, lat, lon, j);
      HalveSame(b, even, c, d, j - 1);
      HoldsUpTo(b, even, d, j, 5, lat, lon);
      HoldsEarlier(b, even, d, j - 1, lat, lon);
      ChooseNext(b, even, lat, lon, j - 1);
      ChooseSize(b, even, lat, lon, j - 1);
      forall i: nat | i < j ensures BitOf(c', i) == BitOf(d, i) { SetBitSets(c, j - 1, i); }
    }
  }

  lemma AllBits(d: nat, d': nat)
    requires d < 32 && d' < 32 && SameBits(d, d', 5)
    ensures d == d'
  {
    hide BitOf;
    BitsDigit(d);
    BitsDigit(d');
    assert forall i: nat :: i < 5 ==> BitOf(d, i) == BitOf(d', i);
  }

  /** A hash is the hash of every point that its box holds. */
  lemma {:induction false} HeldEncoded(h: string, lat: real, lon: real)
    requires IsHash(h) && Holds(BoxOf(h), lat, lon)
    ensures Encoded(lat, lon, |h|) == h
    decreases |h|
  {
    hide HalveBits, Choose, Encoded, Holds, OnMap, Value;
    EncodeStart(lat, lon);
    if h != "" {
      var n := |h| - 1;
      var b, even, d := BoxOf(h[..n]), n % 2 == 0, Code(h[n]);
      BoxesOnMap(h[..n]);
      HoldsUpTo(b, even, d, 0, 5, lat, lon);
      HalveStart(b, even, d);
      HeldEncoded(h[..n], lat, lon);
      EncodedStep(lat, lon, n);
      ChosenIs(b, even, d, 5, lat, lon);
      AllBits(Choose(b, even, lat, lon, 5), d);
      CodeIsValue(h[n]);
      DigitOfValue(h[n]);
      assert h == h[..n] + [h[n]];
    }
  }

  /** Of all hashes of one length, exactly the one whose box holds a point is its hash. */
  lemma EncodedExactly(h: string, lat: real, lon: real)
    requires IsHash(h) && -90.0 <= lat <= 90.0 && -180.0 <= lon <= 180.0
    ensures h == Encoded(lat, lon, |h|) <==> Holds(BoxOf(h), lat, lon)
  {
    hide BoxOf, Encoded, Holds;
    if h == Encoded(lat, lon, |h|) { EncodedHolds(lat, lon, |h|); }
    if Holds(BoxOf(h), lat, lon) { HeldEncoded(h, lat, lon); }
  }

  lemma HalveStart(b: Box, even: bool, d: nat)
    ensures HalveBits(b, even, d, 0) == b
  {
  }

  /** Encoding the centre of what a hash decodes to, with as many digits, gives the hash. */
  lemma RoundTrip(h: string)
    requires IsHash(h) && 1 <= |h| <= 12
    ensures var b := BoxOf(h); Encoded((b.lat0 + b.lat1) / 2.0, (b.lon0 + b.lon1) / 2.0, Precision(|h|)) == h
  {
    hide BoxOf, Encoded;
    BoxesOnMap(h);
    var b := BoxOf(h);
    HeldEncoded(h, (b.lat0 + b.lat1) / 2.0, (b.lon0 + b.lon1) / 2.0);
  }

  // ------------------------------------------------------ boxes on the map

  /** The box in column x and row y, of boxes that are w wide and v high. */
  function Place(x: nat, w: real, y: nat, v: real): Box {
    Box(-90.0 + y as real * v, -90.0 + (y + 1) as real * v, -180.0 + x as real * w, -180.0 + (x + 1) as real * w)
  }

  lemma HalfUp(x: nat, w: real)
    ensures var mid := ((-180.0 + x as real * w) + (-180.0 + (x + 1) as real * w)) / 2.0;
            && mid == -180.0 + (2 * x + 1) as real * (w / 2.0)
            && -180.0 + x as real * w == -180.0 + (2 * x) as real * (w / 2.0)
            && -180.0 + (x + 1) as real * w == -180.0 + (2 * x + 2) as real * (w / 2.0)
    ensures var mid := ((-90.0 + x as real * w) + (-90.0 + (x + 1) as real * w)) / 2.0;
            && mid == -90.0 + (2 * x + 1) as real * (w / 2.0)
            && -90.0 + x as real * w == -90.0 + (2 * x) as real * (w / 2.0)
            && -90.0 + (x + 1) as real * w == -90.0 + (2 * x + 2) as real * (w / 2.0)
  {
  }

  /** Halving a box appends a bit to its column or its row. */
  lemma HalvePlace(x: nat, w: real, y: nat, v: real, even: bool, bit: Bit)
    ensures Halve(Place(x, w, y, v), even, bit == 1) ==
            if even then Place(2 * x + bit, w / 2.0, y, v) else Place(x, w, 2 * y + bit, v / 2.0)
  {
    HalfUp(x, w);
    HalfUp(y, v);
  }

  lemma BitPlace(b: Box, x: nat, w: real, y: nat, v: real, even: bool, d: nat, j: nat)
    requires j < 5 && HalveBits(b, even, d, j) == Place(x, w, y, v)
    ensures HalveBits(b, even, d, j + 1) ==
            if EvenBit(even, j) then Place(2 * x + BitOf(d, j), w / 2.0, y, v) else Place(x, w, 2 * y + BitOf(d, j), v / 2.0)
  {
    hide BitOf, Halve, Place;
    HalvePlace(x, w, y, v, EvenBit(even, j), BitOf(d, j));
  }

  lemma FirstBits(x: nat, w: real, y: nat, v: real, even: bool, d: nat)
    ensures HalveBits(Place(x, w, y, v), even, d, 3) ==
            if even then Place(4 * x + 2 * BitOf(d, 0) + BitOf(d, 2), w / 4.0, 2 * y + BitOf(d, 1), v / 2.0)
            else Place(2 * x + BitOf(d, 1), w / 2.0, 4 * y + 2 * BitOf(d, 0) + BitOf(d, 2), v / 4.0)
  {
    hide BitOf, Halve, Place, HalveBits;
    var b := Place(x, w, y, v);
    HalveStart(b, even, d);
    BitPlace(b, x, w, y, v, even, d, 0);
    if even {
      BitPlace(b, 2 * x + BitOf(d, 0), w / 2.0, y, v, even, d, 1);
      BitPlace(b, 2 * x + BitOf(d, 0), w / 2.0, 2 * y + BitOf(d, 1), v / 2.0, even, d, 2);
    } else {
      BitPlace(b, x, w, 2 * y + BitOf(d, 0), v / 2.0, even, d, 1);
      BitPlace(b, 2 * x + BitOf(d, 1), w / 2.0, 2 * y + BitOf(d, 0), v / 2.0, even, d, 2);
    }
  }

  /** A digit appends its bits to both. */
  lemma DigitPlace(x: nat, w: real, y: nat, v: real, even: bool, d: nat)
    ensures HalveBits(Place(x, w, y, v), even, d, 5) ==
            if even then Place(x * 8 + Num3(ThreeOf(d)), w / 8.0, y * 4 + Num2(TwoOf(d)), v / 4.0)
            else Place(x * 4 + Num2(TwoOf(d)), w / 4.0, y * 8 + Num3(ThreeOf(d)), v / 8.0)
  {
    hide BitOf, Halve, Place, HalveBits;
    var b := Place(x, w, y, v);
    FirstBits(x, w, y, v, even, d);
    if even {
      var x3, y3 := 4 * x + 2 * BitOf(d, 0) + BitOf(d, 2), 2 * y + BitOf(d, 1);
      BitPlace(b, x3, w / 4.0, y3, v / 2.0, even, d, 3);
      BitPlace(b, x3, w / 4.0, 2 * y3 + BitOf(d, 3), v / 4.0, even, d, 4);
    } else {
      var x3, y3 := 2 * x + BitOf(d, 1), 4 * y + 2 * BitOf(d, 0) + BitOf(d, 2);
      BitPlace(b, x3, w / 2.0, y3, v / 4.0, even, d, 3);
      BitPlace(b, 2 * x3 + BitOf(d, 3), w / 4.0, y3, v / 4.0, even, d, 4);
    }
  }

  /** How wide and how high the boxes of hashes of n digits are. */
  function Width(n: nat): real {
    if n == 0 then 360.0 else Width(n - 1) / (if n % 2 == 0 then 4.0 else 8.0)
  }

  function Height(n: nat): real {
    if n == 0 then 180.0 else Height(n - 1) / (if n % 2 == 0 then 8.0 else 4.0)
  }

  /** All the columns together go around the world. */
  lemma {:induction false} ColumnsCover(n: nat)
    ensures Width(n) * Columns(n) as real == 360.0
  {
    if n == 0 {
      assert Columns(0) as real == 1.0;
    } else {
      var w, c, m := Width(n - 1), Columns(n - 1), if n % 2 == 0 then 4 else 8;
      ColumnsCover(n - 1);
      assert Width(n) == w / m as real && Columns(n) == c * m;
      hide Width, Columns;
      SameWhole(w, c, m);
    }
  }

  /** And all the rows from pole to pole. */
  lemma {:induction false} RowsCover(n: nat)
    ensures Height(n) * Rows(n) as real == 180.0
  {
    if n == 0 {
      assert Rows(0) as real == 1.0;
    } else {
      var v, r, l := Height(n - 1), Rows(n - 1), if n % 2 == 0 then 8 else 4;
      RowsCover(n - 1);
      assert Height(n) == v / l as real && Rows(n) == r * l;
      hide Height, Rows;
      SameWhole(v, r, l);
    }
  }

  lemma SameWhole(w: real, c: nat, m: nat)
    requires m == 4 || m == 8
    ensures (w / m as real) * (c * m) as real == w * c as real
  {
  }

  /** The box of a hash is in the column and row that its two numbers name. */
  lemma {:induction false} BoxOfHash(h: string)
    requires IsHash(h)
    ensures BoxOf(h) == Place(X(h), Width(|h|), Y(h), Height(|h|))
    decreases |h|
  {
    hide HalveBits, Value, BitOf, Num2, Num3;
    if h != "" {
      var n := |h| - 1;
      BoxOfHash(h[..n]);
      CodeIsValue(h[n]);
      DigitPlace(X(h[..n]), Width(n), Y(h[..n]), Height(n), n % 2 == 0, Value(h[n]));
    }
  }

  lemma PlaceNext(x: nat, w: real, y: nat, v: real)
    ensures var b, right, above := Place(x, w, y, v), Place(x + 1, w, y, v), Place(x, w, y + 1, v);
            && right.lon0 == b.lon1 && right.lat0 == b.lat0 && right.lat1 == b.lat1
            && above.lat0 == b.lat1 && above.lon0 == b.lon0 && above.lon1 == b.lon1
  {
  }

  /** The box to the right begins where a box ends, unless it is around the world. */
  lemma NextBox(h: string)
    requires IsHash(h) && X(h) + 1 < Columns(|h|)
    ensures var a := Adjacent(h, Right);
            && BoxOf(a).lon0 == BoxOf(h).lon1
            && BoxOf(a).lat0 == BoxOf(h).lat0 && BoxOf(a).lat1 == BoxOf(h).lat1
  {
    hide BoxOf, X, Y, Width, Height, Adjacent, IsHash, Columns, Rows, Place;
    AdjacentMoves(h, Right);
    PlaceNext(X(h), Width(|h|), Y(h), Height(|h|));
    BoxOfHash(h);
    BoxOfHash(Adjacent(h, Right));
  }

  /** And the box above. */
  lemma BoxAbove(h: string)
    requires IsHash(h) && Y(h) + 1 < Rows(|h|)
    ensures var a := Adjacent(h, Top);
            && BoxOf(a).lat0 == BoxOf(h).lat1
            && BoxOf(a).lon0 == BoxOf(h).lon0 && BoxOf(a).lon1 == BoxOf(h).lon1
  {
    hide BoxOf, X, Y, Width, Height, Adjacent, IsHash, Columns, Rows, Place;
    AdjacentMoves(h, Top);
    PlaceNext(X(h), Width(|h|), Y(h), Height(|h|));
    BoxOfHash(h);
    BoxOfHash(Adjacent(h, Top));
  }
}
