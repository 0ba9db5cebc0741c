/**
 * Tile arithmetic of TileExtensions.kt: region ids, the local scene window,
 * local/world translation, square areas, and the ring, spiral and square
 * enumerations.
 *
 * A `Tile` is a value (x, y, floor).  The map base that `Game.mapOffset()`
 * returns is a parameter.  The Kotlin sequences are finite lists here; a
 * negative radius, which makes `require` throw when the sequence is read, is
 * `IllegalArgument`.
 */
module Tiles {

  datatype Option<T> = None | Some(value: T)

  datatype Tile = Tile(x: int, y: int, floor: int)

  datatype Checked<T> = Value(value: T) | IllegalArgument

  function Abs(v: int): nat { if v < 0 then -v else v }

  function Max(a: int, b: int): int { if a < b then b else a }

  /** Chebyshev distance: the number of king moves between the two tiles. */
  function Cheb(a: Tile, b: Tile): nat {
    Max(Abs(a.x - b.x), Abs(a.y - b.y))
  }

  // ---------------------------------------------------------------------
  // region, on 32-bit Ints

  const Two32 := 0x1_0000_0000

  predicate IsInt(v: int) { -0x8000_0000 <= v < 0x8000_0000 }

  /** A Kotlin Int result: the value taken modulo 2^32 into the signed range. */
  function Wrap32(v: int): (r: int)
    ensures IsInt(r) && (r - v) % Two32 == 0
    ensures IsInt(v) ==> r == v
  {
    (v + 0x8000_0000) % Two32 - 0x8000_0000
  }

  function Pow2(k: nat): (p: nat)
    ensures p >= 1
  {
    if k == 0 then 1 else 2 * Pow2(k - 1)
  }

  /**
   * Bitwise `or` of two's-complement integers: bit by bit from the lowest,
   * until both operands are all zeros or all ones.
   */
  function Or(a: int, b: int): int
    decreases Abs(a) + Abs(b)
  {
    if (a == 0 || a == -1) && (b == 0 || b == -1) then
      (if a == -1 || b == -1 then -1 else 0)
    else
      2 * Or(a / 2, b / 2) + (if a % 2 == 1 || b % 2 == 1 then 1 else 0)
  }

  /**
   * region (TileExtensions.kt:12-14): `((x shr 6) shl 8) or (y shr 6)` on
   * Ints.  `shr` is the arithmetic shift (floor division by 64); `shl` wraps.
   */
  function Region(t: Tile): int
    requires IsInt(t.x) && IsInt(t.y)
  {
    Or(Wrap32((t.x / 64) * 256), t.y / 64)
  }

  lemma {:induction false} OrZero(a: int)
    ensures Or(a, 0) == a
    decreases Abs(a)
  {
    if a != 0 && a != -1 {
      OrZero(a / 2);
    }
  }

  /** Or-ing in a value below 2^k is addition when the low k bits are clear. */
  lemma {:induction false} OrLowBits(a: int, b: nat, k: nat)
    requires b < Pow2(k)
    ensures Or(a * Pow2(k), b) == a * Pow2(k) + b
    decreases k
  {
    if k == 0 {
      OrZero(a);
    } else {
      var h := a * Pow2(k - 1);
      assert a * Pow2(k) == 2 * h;
      if !(h == 0 && b == 0) {
        assert (2 * h) / 2 == h && (2 * h) % 2 == 0;
        OrLowBits(a, b / 2, k - 1);
      }
    }
  }

  /** On the world map (coordinates 0 .. 16383), the region is the 64-tile square's column and row, one byte each. */
  lemma RegionOnMap(t: Tile)
    requires 0 <= t.x < 16384 && 0 <= t.y < 16384
    ensures Region(t) == (t.x / 64) * 256 + t.y / 64
    ensures Region(t) / 256 == t.x / 64 && Region(t) % 256 == t.y / 64
  {
    var a, b := t.x / 64, t.y / 64;
    assert Pow2(8) == 256 by {
      assert Pow2(4) == 16;
    }
    OrLowBits(a, b, 8);
  }

  // ---------------------------------------------------------------------
  // local scene

  /** isLocal (TileExtensions.kt:20-22): inside the 104 x 104 loaded scene. */
  predicate IsLocal(t: Tile) {
    0 <= t.x <= 103 && 0 <= t.y <= 103
  }

  /** instanced (TileExtensions.kt:16-18). */
  predicate Instanced(t: Tile) {
    t.x > 6400
  }

  /** local (TileExtensions.kt:24-27): a world tile relative to the map base; local tiles unchanged. */
  function Local(t: Tile, base: Tile): (r: Tile)
    ensures r.floor == t.floor
    ensures IsLocal(t) ==> r == t
    ensures !IsLocal(t) ==> r.x + base.x == t.x && r.y + base.y == t.y
  {
    if IsLocal(t) then t else Tile(t.x - base.x, t.y - base.y, t.floor)
  }

  /** toWorld (TileExtensions.kt:29-35): a local tile moved by the map base; other tiles unchanged. */
  function ToWorld(t: Tile, base: Tile): (r: Tile)
    ensures r.floor == t.floor
    ensures !IsLocal(t) ==> r == t
    ensures IsLocal(t) ==> r.x - base.x == t.x && r.y - base.y == t.y
  {
    if !IsLocal(t) then t else Tile(base.x + t.x, base.y + t.y, t.floor)
  }

  /** A world tile that lands in the scene comes back from local to world unchanged. */
  lemma WorldRoundTrip(t: Tile, base: Tile)
    requires !IsLocal(t) && IsLocal(Tile(t.x - base.x, t.y - base.y, t.floor))
    ensures ToWorld(Local(t, base), base) == t
  {
  }

  /** A scene tile whose world position is outside the scene comes back from world to local unchanged. */
  lemma LocalRoundTrip(t: Tile, base: Tile)
    requires IsLocal(t) && !IsLocal(Tile(base.x + t.x, base.y + t.y, t.floor))
    ensures Local(ToWorld(t, base), base) == t
  {
  }

  // ---------------------------------------------------------------------
  // areas and enumerations

  datatype Area = Area(first: Tile, second: Tile)

  /** surroundingArea (TileExtensions.kt:120-134): the square of the given radius around the tile. */
  function SurroundingArea(t: Tile, radius: int): (r: Checked<Area>)
    ensures r.IllegalArgument? <==> radius < 0
    ensures r.Value? ==>
      var a := r.value;
      a.first == Tile(t.x - radius, t.y - radius, t.floor) && a.second == Tile(t.x + radius, t.y + radius, t.floor)
  {
    if radius < 0 then IllegalArgument
    else
      var x1, y1, x2, y2 := t.x - radius, t.y - radius, t.x + radius, t.y + radius;
      Value(Area(Tile(if x1 < x2 then x1 else x2, if y1 < y2 then y1 else y2, t.floor),
                 Tile(if x1 < x2 then x2 else x1, if y1 < y2 then y2 else y1, t.floor)))
  }

  /** The area is centred on the tile, and its side spans 2·radius + 1 tiles. */
  lemma AreaCentred(t: Tile, radius: nat)
    ensures var a := SurroundingArea(t, radius).value;
      a.first.x + a.second.x == 2 * t.x && a.first.y + a.second.y == 2 * t.y &&
      a.second.x - a.first.x == 2 * radius && Cheb(t, a.first) == radius && Cheb(t, a.second) == radius
  {
  }

  /**
   * The tiles ring(radius) yields (TileExtensions.kt:136-156): for r > 0 the
   * top and bottom rows column by column, then the left and right sides row
   * by row, excluding the corners.
   */
  function Ring(t: Tile, r: nat): (s: seq<Tile>)
    ensures |s| == if r == 0 then 1 else 8 * r
  {
    if r == 0 then [t]
    else seq(8 * r, k requires 0 <= k < 8 * r => RingAt(t, r, k))
  }

  /** The k-th tile of ring r > 0: two per column of the top and bottom rows, then two per row of the sides. */
  function RingAt(t: Tile, r: nat, k: nat): Tile
  {
    var w := 2 * r + 1;
    if k < 2 * w then Tile(t.x - r + k / 2, if k % 2 == 0 then t.y + r else t.y - r, t.floor)
    else Tile(if (k - 2 * w) % 2 == 0 then t.x - r else t.x + r, t.y - r + 1 + (k - 2 * w) / 2, t.floor)
  }

  predicate Distinct(s: seq<Tile>) {
    forall i, j :: 0 <= i < j < |s| ==> s[i] != s[j]
  }

  /** A ring holds exactly the tiles of the same floor at distance r. */
  lemma RingExact(t: Tile, r: nat, u: Tile)
    ensures u in Ring(t, r) <==> u.floor == t.floor && Cheb(t, u) == r
  {
    if r > 0 {
      var s := Ring(t, r);
      var w := 2 * r + 1;
      if u.floor == t.floor && Cheb(t, u) == r {
        if Abs(u.y - t.y) == r {
          var k := 2 * (u.x - t.x + r) + (if u.y == t.y + r then 0 else 1);
          assert s[k] == u;
        } else {
          var k := 2 * (u.y - t.y + r - 1) + (if u.x == t.x - r then 0 else 1);
          assert s[2 * w + k] == u;
        }
      }
    }
  }

  /** No tile of a ring is yielded twice. */
  lemma RingDistinct(t: Tile, r: nat)
    ensures Distinct(Ring(t, r))
  {
    if r > 0 {
      var s := Ring(t, r);
      var w := 2 * r + 1;
      forall i, j | 0 <= i < j < |s| ensures s[i] != s[j] {
        if j < 2 * w {
          assert i / 2 != j / 2 || i % 2 != j % 2;
        } else if i >= 2 * w {
          var a, b := i - 2 * w, j - 2 * w;
          assert a / 2 != b / 2 || a % 2 != b % 2;
        }
      }
    }
  }

  /** spiral (TileExtensions.kt:158-164): the tile, then the rings 1 .. R. */
  function Spiral(t: Tile, radius: nat): seq<Tile>
    decreases radius
  {
    if radius == 0 then [t] else Spiral(t, radius - 1) + Ring(t, radius)
  }

  /** The spiral holds exactly the tiles of the same floor within distance R. */
  lemma {:induction false} SpiralExact(t: Tile, radius: nat, u: Tile)
    ensures u in Spiral(t, radius) <==> u.floor == t.floor && Cheb(t, u) <= radius
    decreases radius
  {
    if radius == 0 {
      SpiralZero(t, u);
    } else {
      SpiralExact(t, radius - 1, u);
      SpiralGrows(t, radius, u);
    }
  }

  lemma SpiralZero(t: Tile, u: Tile)
    ensures u in Spiral(t, 0) <==> u.floor == t.floor && Cheb(t, u) <= 0
  {
    assert Spiral(t, 0) == [t];
  }

  /** Spiral R adds to spiral R-1 exactly the tiles at distance R. */
  lemma SpiralGrows(t: Tile, radius: nat, u: Tile)
    requires radius > 0
    ensures u in Spiral(t, radius) <==> u in Spiral(t, radius - 1) || (u.floor == t.floor && Cheb(t, u) == radius)
  {
    var p, q := Spiral(t, radius - 1), Ring(t, radius);
    assert Spiral(t, radius) == p + q;
    RingExact(t, radius, u);
  }

  /** The spiral visits its tiles in order of distance. */
  lemma {:induction false} SpiralByDistance(t: Tile, radius: nat)
    ensures forall i :: 0 <= i < |Spiral(t, radius)| ==> Cheb(t, Spiral(t, radius)[i]) <= radius
    ensures forall i, j :: 0 <= i < j < |Spiral(t, radius)| ==> Cheb(t, Spiral(t, radius)[i]) <= Cheb(t, Spiral(t, radius)[j])
    decreases radius
  {
    var s := Spiral(t, radius);
    forall i | 0 <= i < |s| ensures Cheb(t, s[i]) <= radius {
      SpiralExact(t, radius, s[i]);
    }
    if radius > 0 {
      var p, q := Spiral(t, radius - 1), Ring(t, radius);
      assert s == p + q;
      SpiralByDistance(t, radius - 1);
      forall i, j | 0 <= i < j < |s| ensures Cheb(t, s[i]) <= Cheb(t, s[j]) {
        if j >= |p| {
          assert s[j] == q[j - |p|];
          assert s[j] in q;
          RingExact(t, radius, s[j]);
          assert Cheb(t, s[i]) <= radius;
        } else {
          assert s[i] == p[i] && s[j] == p[j];
          assert Cheb(t, p[i]) <= Cheb(t, p[j]);
        }
      }
    }
  }

  /** No tile of `p` is a tile of `q`. */
  predicate Apart(p: seq<Tile>, q: seq<Tile>) {
    forall i, j :: 0 <= i < |p| && 0 <= j < |q| ==> p[i] != q[j]
  }

  /** Two duplicate-free lists with no tile in common concatenate to a duplicate-free list. */
  lemma AppendDistinct(p: seq<Tile>, q: seq<Tile>)
    requires Distinct(p) && Distinct(q) && Apart(p, q)
    ensures Distinct(p + q)
  {
    var s := p + q;
    forall i, j | 0 <= i < j < |s| ensures s[i] != s[j] {
      if i < |p| && j >= |p| {
        assert s[i] == p[i] && s[j] == q[j - |p|];
      } else if i >= |p| {
        assert s[i] == q[i - |p|] && s[j] == q[j - |p|];
      } else {
        assert s[i] == p[i] && s[j] == p[j];
      }
    }
  }

  /** No tile is visited twice, and the spiral covers the (2R+1)² tiles within distance R. */
  lemma SpiralDistinct(t: Tile, radius: nat)
    ensures Distinct(Spiral(t, radius))
    ensures |Spiral(t, radius)| == (2 * radius + 1) * (2 * radius + 1)
  {
    SpiralNoRepeat(t, radius);
    SpiralLength(t, radius);
  }

  lemma {:induction false} SpiralNoRepeat(t: Tile, radius: nat)
    ensures Distinct(Spiral(t, radius))
    decreases radius
  {
    if radius > 0 {
      var p := Spiral(t, radius - 1);
      var q := Ring(t, radius);
      SpiralNoRepeat(t, radius - 1);
      RingDistinct(t, radius);
      SpiralRingDisjoint(t, radius);
      AppendDistinct(p, q);
      assert Spiral(t, radius) == p + q;
    }
  }

  /** The ring of radius R holds no tile of the spiral of radius R - 1. */
  lemma SpiralRingDisjoint(t: Tile, radius: nat)
    requires radius > 0
    ensures Apart(Spiral(t, radius - 1), Ring(t, radius))
  {
    var p, q := Spiral(t, radius - 1), Ring(t, radius);
    forall i, j | 0 <= i < |p| && 0 <= j < |q| ensures p[i] != q[j] {
      InnerNotOnRing(t, radius, p, q, i, j);
    }
  }

  /** One pair of SpiralRingDisjoint: the spiral's tile is nearer than the ring's. */
  lemma InnerNotOnRing(t: Tile, radius: nat, p: seq<Tile>, q: seq<Tile>, i: nat, j: nat)
    requires radius > 0 && p == Spiral(t, radius - 1) && q == Ring(t, radius)
    requires i < |p| && j < |q|
    ensures p[i] != q[j]
  {
    SpiralExact(t, radius - 1, p[i]);
    RingAtOnRing(t, radius, j);
  }

  /** Every tile a ring of radius r > 0 names is at distance exactly r. */
  lemma RingAtOnRing(t: Tile, r: nat, k: nat)
    requires 0 < r && k < 8 * r
    ensures Ring(t, r)[k] == RingAt(t, r, k)
    ensures Cheb(t, RingAt(t, r, k)) == r && RingAt(t, r, k).floor == t.floor
  {
  }

  lemma {:induction false} SpiralLength(t: Tile, radius: nat)
    ensures |Spiral(t, radius)| == (2 * radius + 1) * (2 * radius + 1)
    decreases radius
  {
    if radius > 0 {
      SpiralLength(t, radius - 1);
      OddSquareStep(radius);
    }
  }

  lemma OddSquareStep(r: nat)
    ensures (2 * r - 1) * (2 * r - 1) + 8 * r == (2 * r + 1) * (2 * r + 1)
  {
  }

  /** The first tile of a list that satisfies the predicate: `firstOrNull`. */
  function FirstWhere(s: seq<Tile>, pred: Tile -> bool): (r: Option<nat>)
    ensures r.Some? ==> r.value < |s| && pred(s[r.value]) && forall j :: 0 <= j < r.value ==> !pred(s[j])
    ensures r.None? ==> forall j :: 0 <= j < |s| ==> !pred(s[j])
    decreases |s|
  {
    if |s| == 0 then None
    else if pred(s[0]) then Some(0)
    else
      var r := FirstWhere(s[1..], pred);
      if r.Some? then Some(r.value + 1) else None
  }

  /** scanFirst (TileExtensions.kt:174-175); `None` is Tile.Nil. */
  function ScanFirst(t: Tile, maxRadius: int, pred: Tile -> bool): (r: Checked<Option<Tile>>)
    ensures r.IllegalArgument? <==> maxRadius < 0
  {
    if maxRadius < 0 then IllegalArgument
    else
      var s := Spiral(t, maxRadius);
      var k := FirstWhere(s, pred);
      Value(if k.Some? then Some(s[k.value]) else None)
  }

  /** Where a tile within distance R sits in the spiral. */
  lemma SpiralIndex(t: Tile, radius: nat, u: Tile) returns (j: nat)
    requires u.floor == t.floor && Cheb(t, u) <= radius
    ensures j < |Spiral(t, radius)| && Spiral(t, radius)[j] == u
  {
    SpiralExact(t, radius, u);
    j :| 0 <= j < |Spiral(t, radius)| && Spiral(t, radius)[j] == u;
  }

  /** What scanFirst finds satisfies the predicate, and no nearer tile does. */
  lemma ScanFirstNearest(t: Tile, maxRadius: nat, pred: Tile -> bool)
    requires ScanFirst(t, maxRadius, pred).value.Some?
    ensures var v := ScanFirst(t, maxRadius, pred).value.value;
      pred(v) && v.floor == t.floor && Cheb(t, v) <= maxRadius &&
      forall u: Tile :: u.floor == t.floor && Cheb(t, u) < Cheb(t, v) ==> !pred(u)
  {
    var s := Spiral(t, maxRadius);
    var k := FirstWhere(s, pred).value;
    SpiralByDistance(t, maxRadius);
    SpiralExact(t, maxRadius, s[k]);
    forall u: Tile | u.floor == t.floor && Cheb(t, u) < Cheb(t, s[k]) ensures !pred(u) {
      var j := SpiralIndex(t, maxRadius, u);
      assert j < k;
    }
  }

  /** scanFirst returns Nil exactly when no tile within the radius satisfies the predicate. */
  lemma ScanFirstNil(t: Tile, maxRadius: nat, pred: Tile -> bool)
    ensures ScanFirst(t, maxRadius, pred).value.None? <==>
      forall u: Tile :: u.floor == t.floor && Cheb(t, u) <= maxRadius ==> !pred(u)
  {
    var s := Spiral(t, maxRadius);
    if FirstWhere(s, pred).None? {
      forall u: Tile | u.floor == t.floor && Cheb(t, u) <= maxRadius ensures !pred(u) {
        var j := SpiralIndex(t, maxRadius, u);
      }
    } else {
      var k := FirstWhere(s, pred).value;
      SpiralExact(t, maxRadius, s[k]);
    }
  }

  lemma MulSign(d: int, w: int)
    requires w > 0
    ensures d >= 1 ==> d * w >= w
    ensures d <= -1 ==> d * w <= -w
  {
    if d >= 1 {
      assert d * w == (d - 1) * w + w;
    } else if d <= -1 {
      assert d * w == (d + 1) * w - w;
    }
  }
  lemma MulLe(a: int, b: int, w: int)
    requires a <= b && w > 0
    ensures a * w <= b * w
  {
    MulSign(b - a, w);
    assert (b - a) * w == b * w - a * w;
  }

  lemma MulSucc(a: int, b: int)
    ensures (a + 1) * b == a * b + b
  {
  }

  /** Euclidean division by a positive divisor is unique. */
  lemma DivMod(k: int, w: int, q: int, m: int)
    requires w > 0 && k == q * w + m && 0 <= m < w
    ensures k / w == q && k % w == m
  {
    var q', m' := k / w, k % w;
    assert (q' - q) * w == m - m';
    MulSign(q' - q, w);
  }
  /** An index below w·w splits into a row and a column below w. */
  lemma SquareIndex(k: nat, w: nat)
    requires 0 < w && k < w * w
    ensures k / w < w && k == (k / w) * w + k % w
  {
    var q := k / w;
    assert q * w <= k;
    MulSign(q - w + 1, w);
    assert (q - w + 1) * w == q * w - w * w + w;
  }

  /** tilesWithin (TileExtensions.kt:166-172): the square row by row, dy outer and dx inner. */
  function TilesWithin(t: Tile, r: nat): (s: seq<Tile>)
    ensures |s| == (2 * r + 1) * (2 * r + 1)
  {
    var w := 2 * r + 1;
    seq(w * w, k requires 0 <= k < w * w => SquareAt(t, r, k))
  }

  /** The k-th tile of the square: row k / w, column k % w. */
  function SquareAt(t: Tile, r: nat, k: nat): Tile {
    var w := 2 * r + 1;
    Tile(t.x + k % w - r, t.y + k / w - r, t.floor)
  }

  /** The tile at offset (dx, dy) is listed at position (dy + r)·w + (dx + r). */
  lemma SquarePosition(t: Tile, r: nat, dx: int, dy: int)
    requires -(r as int) <= dx <= r && -(r as int) <= dy <= r
    ensures var w := 2 * r + 1; var k := (dy + r) * w + (dx + r);
      k < w * w && SquareAt(t, r, k) == Tile(t.x + dx, t.y + dy, t.floor)
  {
    var w := 2 * r + 1;
    var k := (dy + r) * w + (dx + r);
    MulLe(dy + r, w - 1, w);
    assert (w - 1) * w == w * w - w;
    DivMod(k, w, dy + r, dx + r);
  }

  /** The square holds exactly the tiles within distance r. */
  lemma TilesWithinExact(t: Tile, r: nat, u: Tile)
    ensures u in TilesWithin(t, r) <==> u.floor == t.floor && Cheb(t, u) <= r
  {
    if u.floor == t.floor && Cheb(t, u) <= r {
      var k := SquareHas(t, r, u);
    }
    if u in TilesWithin(t, r) {
      SquareOnlyNear(t, r, u);
    }
  }

  lemma SquareHas(t: Tile, r: nat, u: Tile) returns (k: nat)
    requires u.floor == t.floor && Cheb(t, u) <= r
    ensures k < |TilesWithin(t, r)| && TilesWithin(t, r)[k] == u
  {
    var w := 2 * r + 1;
    SquarePosition(t, r, u.x - t.x, u.y - t.y);
    k := (u.y - t.y + r) * w + (u.x - t.x + r);
  }

  lemma SquareOnlyNear(t: Tile, r: nat, u: Tile)
    requires u in TilesWithin(t, r)
    ensures u.floor == t.floor && Cheb(t, u) <= r
  {
    var s := TilesWithin(t, r);
    var k :| 0 <= k < |s| && s[k] == u;
    SquareAtNear(t, r, k);
  }

  /** Every position of the square names a tile within distance r. */
  lemma SquareAtNear(t: Tile, r: nat, k: nat)
    requires k < (2 * r + 1) * (2 * r + 1)
    ensures var u := SquareAt(t, r, k); u.floor == t.floor && Cheb(t, u) <= r
  {
    var w := 2 * r + 1;
    SquareIndex(k, w);
    var c, d := k % w, k / w;
    assert 0 <= c < w && 0 <= d < w;
    assert SquareAt(t, r, k) == Tile(t.x + c - r, t.y + d - r, t.floor);
  }

  /** The square and the spiral of the same radius hold the same tiles. */
  lemma TilesWithinIsSpiral(t: Tile, r: nat, u: Tile)
    ensures u in TilesWithin(t, r) <==> u in Spiral(t, r)
  {
    TilesWithinExact(t, r, u);
    SpiralExact(t, r, u);
  }

  /** No tile of the square is listed twice. */
  lemma TilesWithinDistinct(t: Tile, r: nat)
    ensures Distinct(TilesWithin(t, r))
  {
    var w := 2 * r + 1;
    var s := TilesWithin(t, r);
    forall i, j | 0 <= i < j < |s| ensures s[i] != s[j] {
      SquareIndex(i, w);
      SquareIndex(j, w);
    }
  }

  // ---------------------------------------------------------------------
  // The generators' loops

  /** ring(radius) (TileExtensions.kt:136-156), yielding as the source does. */
  method RingTiles(t: Tile, radius: int) returns (r: Checked<seq<Tile>>)
    ensures r.IllegalArgument? <==> radius < 0
    ensures r.Value? ==> r.value == Ring(t, radius)
  {
    if radius < 0 {
      return IllegalArgument;
    }
    if radius == 0 {
      return Value([t]);
    }
    var z := t.floor;
    var minX, maxX, minY, maxY := t.x - radius, t.x + radius, t.y - radius, t.y + radius;
    var w := 2 * radius + 1;
    var out: seq<Tile> := [];
    for cx := minX to maxX + 1
      invariant |out| == 2 * (cx - minX)
      invariant forall k :: 0 <= k < |out| ==> out[k] == Ring(t, radius)[k]
    {
      out := out + [Tile(cx, maxY, z), Tile(cx, minY, z)];
    }
    for cy := minY + 1 to maxY
      invariant |out| == 2 * w + 2 * (cy - minY - 1)
      invariant forall k :: 0 <= k < |out| ==> out[k] == Ring(t, radius)[k]
    {
      out := out + [Tile(minX, cy, z), Tile(maxX, cy, z)];
    }
    return Value(out);
  }

  /** spiral(maxRadius) (TileExtensions.kt:158-164). */
  method SpiralTiles(t: Tile, maxRadius: int) returns (r: Checked<seq<Tile>>)
    ensures r.IllegalArgument? <==> maxRadius < 0
    ensures r.Value? ==> r.value == Spiral(t, maxRadius)
  {
    if maxRadius < 0 {
      return IllegalArgument;
    }
    var out := [t];
    for k := 1 to maxRadius + 1
      invariant out == Spiral(t, k - 1)
    {
      var ring := RingTiles(t, k);
      out := out + ring.value;
    }
    return Value(out);
  }

  /** tilesWithin(radius) (TileExtensions.kt:166-172). */
  method TilesWithinTiles(t: Tile, radius: int) returns (r: Checked<seq<Tile>>)
    ensures r.IllegalArgument? <==> radius < 0
    ensures r.Value? ==> r.value == TilesWithin(t, radius)
  {
    if radius < 0 {
      return IllegalArgument;
    }
    ghost var w := 2 * radius + 1;
    ghost var all := TilesWithin(t, radius);
    var out: seq<Tile> := [];
    for dy := -radius to radius + 1
      invariant |out| == (dy + radius) * w && out == all[..|out|]
    {
      ghost var rowStart := |out|;
      MulSucc(dy + radius, w);
      MulLe(dy + radius + 1, w, w);
      for dx := -radius to radius + 1
        invariant |out| == rowStart + (dx + radius) && out == all[..|out|]
      {
        SquarePosition(t, radius, dx, dy);
        assert all[..|out| + 1] == all[..|out|] + [all[|out|]];
        out := out + [Tile(t.x + dx, t.y + dy, t.floor)];
      }
    }
    return Value(out);
  }
}
