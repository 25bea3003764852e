/** Rows and grids of geohashes around a centre. */
module GeoGrid {
  import opened Bytes
  import opened GeoDigits
  import opened GeoAdjacent

  lemma {:induction false} SameParts(x: nat, y: nat, x': nat, y': nat, m: nat)
    requires y < m && y' < m && m > 0 && x * m + y == x' * m + y'
    ensures x == x' && y == y'
  {
    ModUnique(x * m + y, m, x, y);
    ModUnique(x * m + y, m, x', y');
  }

  lemma SameThree(x: Three, x': Three)
    ensures Num3(x) == Num3(x') ==> x == x'
  {
  }

  lemma SameTwo(y: Two, y': Two)
    ensures Num2(y) == Num2(y') ==> y == y'
  {
  }

  /** A hash is known by its length and its two numbers. */
  lemma {:induction false} SameHash(h: string, g: string)
    requires IsHash(h) && IsHash(g) && |h| == |g| && X(h) == X(g) && Y(h) == Y(g)
    ensures h == g
    decreases |h|
  {
    hide Value, BitOf, X, Y, IsHash, Num2, Num3, Of, IsDigit;
    if h != "" {
      var n := |h| - 1;
      assert h == h[..n] + [h[n]] && g == g[..n] + [g[n]];
      var c, d := Value(h[n]), Value(g[n]);
      Longer(h[..n], h[n]);
      Longer(g[..n], g[n]);
      HashSnoc(h[..n], h[n]);
      HashSnoc(g[..n], g[n]);
      if |h| % 2 == 0 {
        SameParts(X(h[..n]), Num2(TwoOf(c)), X(g[..n]), Num2(TwoOf(d)), 4);
        SameParts(Y(h[..n]), Num3(ThreeOf(c)), Y(g[..n]), Num3(ThreeOf(d)), 8);
      } else {
        SameParts(X(h[..n]), Num3(ThreeOf(c)), X(g[..n]), Num3(ThreeOf(d)), 8);
        SameParts(Y(h[..n]), Num2(TwoOf(c)), Y(g[..n]), Num2(TwoOf(d)), 4);
      }
      SameThree(ThreeOf(c), ThreeOf(d));
      SameTwo(TwoOf(c), TwoOf(d));
      DigitBelow(h[n]);
      DigitBelow(g[n]);
      OfParts(c);
      OfParts(d);
      SameDigit(h[n], g[n]);
      SameHash(h[..n], g[..n]);
    }
  }

  lemma DigitBelow(c: char)
    requires IsDigit(c)
    ensures Value(c) < 32
  {
  }

  function Opposite(dir: Dir): Dir {
    match dir
    case Right => Left
    case Left => Right
    case Top => Bottom
    case Bottom => Top
  }

  /** A step and the opposite step lead back. */
  lemma StepBack(h: string, dir: Dir)
    requires IsHash(h)
    ensures Adjacent(Adjacent(h, dir), Opposite(dir)) == h
  {
    var a := Adjacent(h, dir);
    AdjacentMoves(h, dir);
    AdjacentMoves(a, Opposite(dir));
    AroundIsMod(X(h), Columns(|h|));
    AroundIsMod(Y(h), Rows(|h|));
    hide X, Y, Columns, Rows, IsHash, Adjacent;
    SameHash(Adjacent(a, Opposite(dir)), h);
  }

  /** A coordinate around the world. */
  function Wrapped(a: int, s: nat): (w: nat)
    requires s > 0
    ensures w < s
  {
    a % s
  }

  /** h lies dx columns to the right of c and dy rows above it, around the world if need be. */
  predicate Offset(c: string, h: string, dx: int, dy: int) {
    && |h| == |c| && IsHash(h)
    && X(h) == Wrapped(X(c) + dx, Columns(|c|))
    && Y(h) == Wrapped(Y(c) + dy, Rows(|c|))
  }

  lemma OffsetNone(c: string)
    requires IsHash(c)
    ensures Offset(c, c, 0, 0)
  {
    InRange(c);
    ModUnique(X(c), Columns(|c|), 0, X(c));
    ModUnique(Y(c), Rows(|c|), 0, Y(c));
  }

  lemma ModStep(a: int, s: nat)
    requires s > 0
    ensures Up(Wrapped(a, s), s) == Wrapped(a + 1, s) && Down(Wrapped(a, s), s) == Wrapped(a - 1, s)
  {
    var q, v := a / s, a % s;
    assert a == s * q + v;
    if v + 1 == s {
      assert s * (q + 1) == s * q + s;
      ModUnique(a + 1, s, q + 1, 0);
    } else {
      ModUnique(a + 1, s, q, v + 1);
    }
    if v == 0 {
      assert s * (q - 1) == s * q - s;
      ModUnique(a - 1, s, q - 1, s - 1);
    } else {
      ModUnique(a - 1, s, q, v - 1);
    }
  }

  /** How far n steps lead along each axis. */
  function AlongX(dir: Dir, n: int): int {
    if dir == Right then n else if dir == Left then 0 - n else 0
  }

  function AlongY(dir: Dir, n: int): int {
    if dir == Top then n else if dir == Bottom then 0 - n else 0
  }

  /** A step changes the offset by one. */
  lemma OffsetStep(c: string, h: string, dx: int, dy: int, dir: Dir)
    requires Offset(c, h, dx, dy)
    ensures Offset(c, Adjacent(h, dir), dx + AlongX(dir, 1), dy + AlongY(dir, 1))
  {
    hide Wrapped, X, Y, Columns, Rows, IsHash, Adjacent, Up, Down;
    AdjacentMoves(h, dir);
    ModStep(X(c) + dx, Columns(|c|));
    ModStep(Y(c) + dy, Rows(|c|));
  }

  // -------------------------------------------------------- rows and grids

  /** n steps in one direction. */
  function Steps(h: string, dir: Dir, n: nat): string {
    if n == 0 then h else Adjacent(Steps(h, dir, n - 1), dir)
  }

  /** Steps to the right, or to the left when there are fewer than none. */
  function Along(h: string, n: int): string {
    if n >= 0 then Steps(h, Right, n) else Steps(h, Left, -n)
  }

  function Across(h: string, n: int): string {
    if n >= 0 then Steps(h, Top, n) else Steps(h, Bottom, -n)
  }

  /** The order in which a row is listed: the centre, then to the left and right in turn. */
  function RowPlace(k: nat): int {
    if k % 2 == 1 then -((k + 1) / 2) else k / 2
  }

  /** The order in which the rows of a grid are: the centre, then above and below in turn. */
  function GridPlace(k: nat): int {
    -RowPlace(k)
  }

  function RowOf(center: string, steps: nat): (row: seq<string>)
    ensures |row| == 2 * steps + 1
  {
    seq(2 * steps + 1, k requires 0 <= k < 2 * steps + 1 => Along(center, RowPlace(k)))
  }

  lemma PlacesNext(i: nat)
    ensures RowPlace(0) == 0 && RowPlace(2 * i + 1) == -(i + 1) && RowPlace(2 * i + 2) == i + 1
  {
  }

  lemma TwoMore<T>(s: seq<T>, t: seq<T>)
    requires |t| == |s| + 2 && forall k :: 0 <= k < |s| ==> t[k] == s[k]
    ensures t == s + [t[|s|]] + [t[|s| + 1]]
  {
  }

  lemma RowStart(center: string)
    ensures RowOf(center, 0) == [center]
  {
  }

  lemma RowEntry(center: string, steps: nat, k: nat)
    requires k < 2 * steps + 1
    ensures RowOf(center, steps)[k] == Along(center, RowPlace(k))
  {
  }

  lemma RowNext(center: string, i: nat)
    ensures Along(center, RowPlace(2 * i + 1)) == Steps(center, Left, i + 1)
    ensures Along(center, RowPlace(2 * i + 2)) == Steps(center, Right, i + 1)
  {
    PlacesNext(i);
    hide RowPlace;
  }

  lemma RowGrows(center: string, i: nat)
    ensures RowOf(center, i + 1) == RowOf(center, i) + [Steps(center, Left, i + 1)] + [Steps(center, Right, i + 1)]
  {
    hide RowPlace, Steps, Along, RowOf;
    var n := 2 * i + 1;
    RowNext(center, i);
    var s, t := RowOf(center, i), RowOf(center, i + 1);
    RowEntry(center, i + 1, n);
    RowEntry(center, i + 1, n + 1);
    forall k | 0 <= k < n ensures t[k] == s[k] {
      RowEntry(center, i, k);
      RowEntry(center, i + 1, k);
    }
    TwoMore(s, t);
  }

  /** bkGeoHashRow */
  method Row(center: string, steps: int) returns (rc: seq<string>)
    ensures rc == RowOf(center, if steps < 0 then 0 else steps)
  {
    hide RowOf, Adjacent;
    rc := [center];
    RowStart(center);
    var left, right, i := center, center, 0;
    while i < steps
      invariant 0 <= i && (steps >= 0 ==> i <= steps) && (steps < 0 ==> i == 0) && rc == RowOf(center, i)
      invariant left == Steps(center, Left, i) && right == Steps(center, Right, i)
    {
      RowGrows(center, i);
      var next := Adjacent(left, Left);
      rc := rc + [next];
      left := next;
      next := Adjacent(right, Right);
      rc := rc + [next];
      right := next;
      i := i + 1;
    }
  }

  /** The first rows of a grid, up to i above and below the centre. */
  function RowsOf(center: string, i: nat, steps: nat): (grid: seq<seq<string>>)
    ensures |grid| == 2 * i + 1
  {
    seq(2 * i + 1, k requires 0 <= k < 2 * i + 1 => RowOf(Across(center, GridPlace(k)), steps))
  }

  lemma RowsStart(center: string, steps: nat)
    ensures RowsOf(center, 0, steps) == [RowOf(center, steps)]
  {
  }

  lemma RowsEntry(center: string, i: nat, steps: nat, k: nat)
    requires k < 2 * i + 1
    ensures RowsOf(center, i, steps)[k] == RowOf(Across(center, GridPlace(k)), steps)
  {
  }

  lemma RowsNext(center: string, i: nat)
    ensures Across(center, GridPlace(2 * i + 1)) == Steps(center, Top, i + 1)
    ensures Across(center, GridPlace(2 * i + 2)) == Steps(center, Bottom, i + 1)
  {
    PlacesNext(i);
    hide RowPlace;
  }

  lemma RowsGrow(center: string, i: nat, steps: nat)
    ensures RowsOf(center, i + 1, steps) ==
            RowsOf(center, i, steps) + [RowOf(Steps(center, Top, i + 1), steps)] + [RowOf(Steps(center, Bottom, i + 1), steps)]
  {
    hide RowPlace, GridPlace, Steps, RowOf, RowsOf, Across;
    var n := 2 * i + 1;
    RowsNext(center, i);
    var s, t := RowsOf(center, i, steps), RowsOf(center, i + 1, steps);
    RowsEntry(center, i + 1, steps, n);
    RowsEntry(center, i + 1, steps, n + 1);
    forall k | 0 <= k < n ensures t[k] == s[k] {
      RowsEntry(center, i, steps, k);
      RowsEntry(center, i + 1, steps, k);
    }
    TwoMore(s, t);
  }

  /** bkGeoHashGrid */
  method Grid(center: string, steps: int) returns (rc: seq<seq<string>>)
    ensures var n := if steps < 0 then 0 else steps; rc == RowsOf(center, n, n)
  {
    hide RowOf, RowsOf, Adjacent;
    var col := Row(center, steps);
    rc := [col];
    var top, bottom, i := center, center, 0;
    ghost var n := if steps < 0 then 0 else steps;
    RowsStart(center, n);
    while i < steps
      invariant 0 <= i <= n && rc == RowsOf(center, i, n)
      invariant top == Steps(center, Top, i) && bottom == Steps(center, Bottom, i)
    {
      RowsGrow(center, i, n);
      var next := Adjacent(top, Top);
      col := Row(next, steps);
      rc := rc + [col];
      top := next;
      next := Adjacent(bottom, Bottom);
      col := Row(next, steps);
      rc := rc + [col];
      bottom := next;
      i := i + 1;
    }
  }

  lemma {:induction false} StepsOffset(c: string, h: string, dx: int, dy: int, dir: Dir, n: nat)
    requires Offset(c, h, dx, dy)
    ensures Offset(c, Steps(h, dir, n), dx + AlongX(dir, n), dy + AlongY(dir, n))
    decreases n
  {
    hide Offset, Adjacent;
    if n > 0 {
      StepsOffset(c, h, dx, dy, dir, n - 1);
      OffsetStep(c, Steps(h, dir, n - 1), dx + AlongX(dir, n - 1), dy + AlongY(dir, n - 1), dir);
    }
  }

  predicate Within(d: int, steps: nat) {
    -(steps as int) <= d <= steps
  }

  lemma PlacesWithin(k: nat, steps: nat)
    requires k < 2 * steps + 1
    ensures Within(RowPlace(k), steps) && Within(GridPlace(k), steps)
  {
  }

  lemma AlongOffset(c: string, h: string, dx: int, dy: int, n: int)
    requires Offset(c, h, dx, dy)
    ensures Offset(c, Along(h, n), dx + n, dy)
  {
    hide Offset, Steps;
    if n >= 0 { StepsOffset(c, h, dx, dy, Right, n); } else { StepsOffset(c, h, dx, dy, Left, -n); }
  }

  lemma AcrossOffset(c: string, h: string, dx: int, dy: int, n: int)
    requires Offset(c, h, dx, dy)
    ensures Offset(c, Across(h, n), dx, dy + n)
  {
    hide Offset, Steps;
    if n >= 0 { StepsOffset(c, h, dx, dy, Top, n); } else { StepsOffset(c, h, dx, dy, Bottom, -n); }
  }

  /** Every entry of a grid lies at the offset of its place. */
  lemma GridEntry(c: string, steps: nat, p: nat, q: nat)
    requires IsHash(c) && p < 2 * steps + 1 && q < 2 * steps + 1
    ensures Within(GridPlace(p), steps) && Within(RowPlace(q), steps)
    ensures Offset(c, RowsOf(c, steps, steps)[p][q], RowPlace(q), GridPlace(p))
  {
    hide Offset, Adjacent, RowPlace, GridPlace, Steps, Within, Along, Across, RowOf, RowsOf, IsHash;
    PlacesWithin(p, steps);
    PlacesWithin(q, steps);
    RowsEntry(c, steps, steps, p);
    RowEntry(Across(c, GridPlace(p)), steps, q);
    OffsetNone(c);
    AcrossOffset(c, c, 0, 0, GridPlace(p));
    AlongOffset(c, Across(c, GridPlace(p)), 0, GridPlace(p), RowPlace(q));
  }

  /** Where the offset n is listed. */
  function PlaceOf(n: int): (k: nat)
    ensures RowPlace(k) == n && GridPlace(k) == -n
    ensures forall steps: nat :: Within(n, steps) ==> k < 2 * steps + 1
  {
    if n < 0 then -2 * n - 1 else 2 * n
  }

  /** h is somewhere in the grid. */
  ghost predicate Listed(grid: seq<seq<string>>, h: string) {
    exists p, q :: 0 <= p < |grid| && 0 <= q < |grid[p]| && grid[p][q] == h
  }

  /** h is no more than `steps` away along each axis. */
  ghost predicate Near(c: string, steps: nat, h: string) {
    exists dx, dy :: Within(dx, steps) && Within(dy, steps) && Offset(c, h, dx, dy)
  }

  /** A grid lists what is near and nothing else. */
  lemma GridIsSquare(c: string, steps: nat, h: string)
    requires IsHash(c)
    ensures Listed(RowsOf(c, steps, steps), h) <==> Near(c, steps, h)
  {
    var grid := RowsOf(c, steps, steps);
    hide Offset;
    if p, q :| 0 <= p < |grid| && 0 <= q < |grid[p]| && grid[p][q] == h {
      GridEntry(c, steps, p, q);
      hide RowPlace, GridPlace, RowOf, RowsOf, Within;
      assert Near(c, steps, h);
    }
    if dx, dy :| Within(dx, steps) && Within(dy, steps) && Offset(c, h, dx, dy) {
      NearIsListed(c, steps, h, dx, dy);
    }
  }

  lemma NearIsListed(c: string, steps: nat, h: string, dx: int, dy: int)
    requires IsHash(c) && Within(dx, steps) && Within(dy, steps) && Offset(c, h, dx, dy)
    ensures Listed(RowsOf(c, steps, steps), h)
  {
    var p, q := PlaceOf(0 - dy), PlaceOf(dx);
    PlaceFits(0 - dy, steps);
    PlaceFits(dx, steps);
    hide RowPlace, GridPlace, RowOf, RowsOf, Within, PlaceOf, Offset, IsHash;
    GridEntry(c, steps, p, q);
    SameOffset(c, h, RowsOf(c, steps, steps)[p][q], dx, dy);
  }

  lemma SameOffset(c: string, h: string, g: string, dx: int, dy: int)
    requires Offset(c, h, dx, dy) && Offset(c, g, dx, dy)
    ensures h == g
  {
    SameHash(h, g);
  }

  lemma PlaceFits(n: int, steps: nat)
    requires Within(n, steps) || Within(0 - n, steps)
    ensures PlaceOf(n) < 2 * steps + 1
  {
  }
}
