/** The clickable overlay map (tools/check_bigmap.py): a torus of tiles drawn as cells of k pixels,
    and the log check that re-derives every click from the geometry shown before it. */
module BigMap {
  import opened Arithmetic
  import opened Options

  /** Pixels per tile of the game view. */
  const TILE := 32

  /** One axis of the overlay: where the map starts, pixels per tile, tiles, the tile at the centre,
      and the size of the game view in pixels. */
  datatype Axis = Axis(origin: int, k: nat, m: nat, centre: int, view: nat)
  {
    /** The division by `k` and the two remainders by `m` are defined. */
    predicate Sound() {
      k > 0 && m > 0
    }

    /** The cell under a pixel, clamped to the map. */
    function Cell(p: int): (ix: int)
      requires Sound()
      ensures 0 <= ix < m
    {
      var raw := (p - origin) / k;
      var low := if raw > 0 then raw else 0;
      if low < m - 1 then low else m - 1
    }

    function TileOfCell(ix: int): (t: int)
      requires Sound()
      ensures 0 <= t < m
    {
      (ix + centre - m / 2) % m
    }

    function Tile(p: int): (t: int)
      requires Sound()
      ensures 0 <= t < m
    {
      TileOfCell(Cell(p))
    }

    function Camera(t: int): (c: int)
      requires Sound()
      ensures 0 <= c < m
    {
      (t - view / 2 / TILE) % m
    }

    /** The cell a tile is drawn in. */
    function CellOfTile(t: int): (ix: int)
      requires Sound()
      ensures 0 <= ix < m
    {
      (t - centre + m / 2) % m
    }
  }

  /** Shifting by `s` and back by `-s`, modulo `m`. */
  lemma {:induction false} ShiftBack(x: int, s: int, m: nat)
    requires 0 <= x < m
    ensures ((x + s) % m - s) % m == x
  {
    var q := (x + s) / m;
    assert x + s == m * q + (x + s) % m;
    assert (x + s) % m - s == m * (-q) + x;
    DivModUnique((x + s) % m - s, -q, x, m);
  }

  /** Shifting around the torus is undone by shifting back, and by nothing else. */
  lemma {:induction false} ShiftExact(x: int, y: int, s: int, m: nat)
    requires 0 <= x < m && 0 <= y < m
    ensures (x + s) % m == y <==> (y - s) % m == x
  {
    ShiftBack(x, s, m);
    ShiftBack(y, -s, m);
  }

  /** The overlay shows every tile of the torus in exactly one cell. */
  lemma {:induction false} CellsAndTilesBijective(ax: Axis, ix: int, t: int)
    requires ax.Sound() && 0 <= ix < ax.m && 0 <= t < ax.m
    ensures ax.TileOfCell(ix) == t <==> ax.CellOfTile(t) == ix
  {
    var s := ax.centre - ax.m / 2;
    ShiftExact(ix, t, s, ax.m);
    assert ix + ax.centre - ax.m / 2 == ix + s && t - ax.centre + ax.m / 2 == t - s;
  }

  /** The pixels of a cell are its `k` in a row; the first and last cell also take every pixel
      before and after the map. */
  lemma {:induction false} CellPixels(ax: Axis, p: int, ix: int)
    requires ax.Sound() && 0 <= ix < ax.m
    ensures ax.Cell(p) == ix <==>
              && (ix == 0 || ax.origin + ax.k * ix <= p)
              && (ix == ax.m - 1 || p < ax.origin + ax.k * (ix + 1))
  {
    var raw, off := (p - ax.origin) / ax.k, p - ax.origin;
    assert off == ax.k * raw + off % ax.k;
    Compare(ax.k, off, raw, ix);
    Compare(ax.k, off, raw, ix + 1);
  }

  lemma {:induction false} Compare(k: nat, off: int, raw: int, ix: int)
    requires k > 0 && raw == off / k && off == k * raw + off % k
    ensures raw >= ix <==> off >= k * ix
  {
    assert k * (raw - ix) == k * raw - k * ix;
    Multiples(k, raw - ix);
  }

  /** Every tile owns exactly `k` pixels inside the map, in one run. */
  lemma {:induction false} TilePixels(ax: Axis, p: int, t: int)
    requires ax.Sound() && 0 <= t < ax.m
    requires ax.origin <= p < ax.origin + ax.k * ax.m
    ensures var first := ax.origin + ax.k * ax.CellOfTile(t);
            && (ax.Tile(p) == t <==> first <= p < first + ax.k)
            && ax.origin <= first && first + ax.k <= ax.origin + ax.k * ax.m
  {
    var ix, m := ax.CellOfTile(t), ax.m;
    CellsAndTilesBijective(ax, ax.Cell(p), t);
    CellPixels(ax, p, ix);
    Scale(ax.k, 0, ix);
    Scale(ax.k, ix + 1, m);
    Distribute(ax.k, ix);
  }

  /** Half a view from the camera is the clicked tile; no other camera on the map does that. */
  lemma {:induction false} CameraCentres(ax: Axis, t: int, c: int)
    requires ax.Sound() && 0 <= t < ax.m && 0 <= c < ax.m
    ensures (c + ax.view / 64) % ax.m == t <==> c == ax.Camera(t)
  {
    assert ax.view / 2 / TILE == ax.view / 64;
    ShiftExact(c, t, ax.view / 64, ax.m);
  }

  /** The tile at the centre is drawn in the cell in the middle. */
  lemma {:induction false} CentreInTheMiddle(ax: Axis)
    requires ax.Sound() && 0 <= ax.centre < ax.m
    ensures ax.CellOfTile(ax.centre) == ax.m / 2 && ax.TileOfCell(ax.m / 2) == ax.centre
  {
    var half := ax.m / 2;
    assert 0 <= half < ax.m;
    DivModUnique(half, 0, half, ax.m);
    CellsAndTilesBijective(ax, half, ax.centre);
  }

  /** Neighbouring cells show neighbouring tiles, around the torus. */
  lemma {:induction false} NextCellNextTile(ax: Axis, ix: nat)
    requires ax.Sound() && ix + 1 < ax.m
    ensures ax.TileOfCell(ix + 1) == (ax.TileOfCell(ix) + 1) % ax.m
  {
    var a, m := ix + ax.centre - ax.m / 2, ax.m;
    assert a == m * (a / m) + a % m;
    if a % m + 1 < m {
      DivModUnique(a + 1, a / m, a % m + 1, m);
      DivModUnique(a % m + 1, 0, a % m + 1, m);
    } else {
      assert m * (a / m + 1) == m * (a / m) + m;
      DivModUnique(a + 1, a / m + 1, 0, m);
      DivModUnique(m, 1, 0, m);
    }
  }

  // ---- the log check ------------------------------------------------------------------------

  datatype Geometry = Geometry(h: Axis, v: Axis)

  /** The lines the check reads, parsed: a geometry with its centre, or a click with the tile and
      the camera the overlay logged for it. */
  datatype Event =
    | Shown(geom: Geometry)
    | Click(x: int, y: int, tc: int, tr: int, cc: int, cr: int)
    | Drag

  datatype Problem = TooFewClicks(count: nat) | NoGeometry(at: nat) | WrongTile(at: nat) | WrongCamera(at: nat)
  datatype Verdict = Problems(list: seq<Problem>) | DivisionByZero

  /** The geometry in force at event `i`: the last one shown before it. */
  function InForce(ev: seq<Event>, i: nat): Option<Geometry>
    requires i <= |ev|
  {
    if i == 0 then None
    else if ev[i - 1].Shown? then Some(ev[i - 1].geom)
    else InForce(ev, i - 1)
  }

  predicate SoundGeometry(g: Geometry) {
    g.h.Sound() && g.v.Sound()
  }

  predicate TileRight(e: Event, g: Geometry)
    requires e.Click? && SoundGeometry(g)
  {
    e.tc == g.h.Tile(e.x) && e.tr == g.v.Tile(e.y)
  }

  predicate CameraRight(e: Event, g: Geometry)
    requires e.Click? && SoundGeometry(g)
  {
    e.cc == g.h.Camera(g.h.Tile(e.x)) && e.cr == g.v.Camera(g.v.Tile(e.y))
  }

  predicate Raises(ev: seq<Event>, i: nat)
    requires i < |ev|
  {
    ev[i].Click? && InForce(ev, i).Some? && !SoundGeometry(InForce(ev, i).value)
  }

  predicate Right(ev: seq<Event>, i: nat)
    requires i < |ev|
  {
    ev[i].Click? ==>
      && InForce(ev, i).Some? && SoundGeometry(InForce(ev, i).value)
      && TileRight(ev[i], InForce(ev, i).value) && CameraRight(ev[i], InForce(ev, i).value)
  }

  function Clicks(ev: seq<Event>): nat {
    if ev == [] then 0 else Clicks(ev[..|ev| - 1]) + if ev[|ev| - 1].Click? then 1 else 0
  }

  /** The event a problem is reported for; the count comes before all of them. */
  function Place(p: Problem): int {
    match p
    case TooFewClicks(_) => -1
    case NoGeometry(i) => i
    case WrongTile(i) => i
    case WrongCamera(i) => i
  }

  /** Click `i` under a geometry that can be computed with. */
  predicate Judged(ev: seq<Event>, i: nat) {
    i < |ev| && ev[i].Click? && InForce(ev, i).Some? && SoundGeometry(InForce(ev, i).value)
  }

  /** The log has this problem. */
  predicate Due(ev: seq<Event>, minClicks: nat, p: Problem) {
    match p
    case TooFewClicks(n) => n == Clicks(ev) < minClicks
    case NoGeometry(i) => i < |ev| && ev[i].Click? && InForce(ev, i).None?
    case WrongTile(i) => Judged(ev, i) && !TileRight(ev[i], InForce(ev, i).value)
    case WrongCamera(i) => Judged(ev, i) && !CameraRight(ev[i], InForce(ev, i).value)
  }

  /** Without a division by zero, no problem to report is a clean log. */
  lemma NothingDueIsClean(ev: seq<Event>, minClicks: nat)
    requires forall i: nat | i < |ev| :: !Raises(ev, i)
    ensures (forall p :: !Due(ev, minClicks, p))
       <==> Clicks(ev) >= minClicks && forall i: nat | i < |ev| :: Right(ev, i)
  {
    if forall p :: !Due(ev, minClicks, p) {
      assert !Due(ev, minClicks, TooFewClicks(Clicks(ev)));
      forall i: nat | i < |ev|
        ensures Right(ev, i)
      {
        assert !Raises(ev, i);
        assert !Due(ev, minClicks, NoGeometry(i)) && !Due(ev, minClicks, WrongTile(i))
               && !Due(ev, minClicks, WrongCamera(i));
      }
    }
    if Clicks(ev) >= minClicks && forall i: nat | i < |ev| :: Right(ev, i) {
      forall p: Problem
        ensures !Due(ev, minClicks, p)
      {
        if 0 <= Place(p) < |ev| { assert Right(ev, Place(p)); }
      }
    }
  }

  /** The check divides by zero exactly at a click whose geometry has no pixels to a tile, or no tiles,
      one way or the other. */
  lemma RaisesAtZero(ev: seq<Event>, i: nat)
    requires i < |ev|
    ensures Raises(ev, i) <==>
              && ev[i].Click? && InForce(ev, i).Some?
              && var g := InForce(ev, i).value;
                 g.h.k == 0 || g.h.m == 0 || g.v.k == 0 || g.v.m == 0
  {
  }

  /** The clicks are counted one by one. */
  lemma {:induction false} ClicksCounted(ev: seq<Event>)
    ensures Clicks(ev) == |set i | 0 <= i < |ev| && ev[i].Click?|
  {
    if ev != [] {
      var n := |ev| - 1;
      var init := ev[..n];
      ClicksCounted(init);
      var before, all := set i | 0 <= i < |init| && init[i].Click?, set i | 0 <= i < |ev| && ev[i].Click?;
      assert all == if ev[n].Click? then before + {n} else before;
    }
  }

  method ClickLogProblems(ev: seq<Event>, minClicks: nat) returns (r: Verdict)
    ensures r == DivisionByZero <==> exists i: nat :: i < |ev| && Raises(ev, i)
    ensures r.Problems? ==>
              (r.list == [] <==> Clicks(ev) >= minClicks && forall i: nat | i < |ev| :: Right(ev, i))
    ensures r.Problems? ==> forall p :: p in r.list <==> Due(ev, minClicks, p)
  {
    var out: seq<Problem> := [];
    var clicks := 0;
    for i := 0 to |ev|
      invariant clicks == Clicks(ev[..i])
    {
      assert ev[..i + 1][..i] == ev[..i];
      if ev[i].Click? { clicks := clicks + 1; }
    }
    assert ev[..|ev|] == ev;
    if clicks < minClicks { out := [TooFewClicks(clicks)]; }
    var geom: Option<Geometry> := None;
    for i := 0 to |ev|
      invariant geom == InForce(ev, i)
      invariant forall j: nat | j < i :: !Raises(ev, j)
      invariant forall p :: p in out <==> Due(ev, minClicks, p) && Place(p) < i
    {
      match ev[i] {
        case Shown(g) =>
          geom := Some(g);
        case Drag =>
        case Click(x, y, tc, tr, cc, cr) =>
          if geom.None? {
            out := out + [NoGeometry(i)];
            continue;
          }
          var g := geom.value;
          if !SoundGeometry(g) {
            assert Raises(ev, i);
            return DivisionByZero;
          }
          var t, u := g.h.Tile(x), g.v.Tile(y);
          var c, d := g.h.Camera(t), g.v.Camera(u);
          if (tc, tr) != (t, u) { out := out + [WrongTile(i)]; }
          if (cc, cr) != (c, d) { out := out + [WrongCamera(i)]; }
      }
    }
    NothingDueIsClean(ev, minClicks);
    assert out != [] ==> out[0] in out;
    r := Problems(out);
  }

  /** What a click has to log: across and down, the tile drawn in the cell under the pixel, and the
      one camera that has the tile under the pixel half a view away. */
  lemma {:induction false} RightClick(e: Event, g: Geometry)
    requires e.Click? && SoundGeometry(g)
    ensures TileRight(e, g) <==>
              && 0 <= e.tc < g.h.m && g.h.Cell(e.x) == g.h.CellOfTile(e.tc)
              && 0 <= e.tr < g.v.m && g.v.Cell(e.y) == g.v.CellOfTile(e.tr)
    ensures CameraRight(e, g) <==>
              && 0 <= e.cc < g.h.m && (e.cc + g.h.view / 64) % g.h.m == g.h.TileOfCell(g.h.Cell(e.x))
              && 0 <= e.cr < g.v.m && (e.cr + g.v.view / 64) % g.v.m == g.v.TileOfCell(g.v.Cell(e.y))
  {
    var t, u := g.h.Tile(e.x), g.v.Tile(e.y);
    if 0 <= e.tc < g.h.m { CellsAndTilesBijective(g.h, g.h.Cell(e.x), e.tc); }
    if 0 <= e.tr < g.v.m { CellsAndTilesBijective(g.v, g.v.Cell(e.y), e.tr); }
    if 0 <= e.cc < g.h.m { CameraCentres(g.h, t, e.cc); }
    if 0 <= e.cr < g.v.m { CameraCentres(g.v, u, e.cr); }
  }

  /** The geometry that counts is that of the last `shown` line before the click. */
  lemma {:induction false} LastShownCounts(ev: seq<Event>, i: nat)
    requires i <= |ev|
    ensures forall j | ShownLast(ev, j, i) :: InForce(ev, i) == Some(ev[j].geom)
    ensures InForce(ev, i) == None <==> forall j | 0 <= j < i :: !ev[j].Shown?
  {
    if i > 0 {
      var n := i - 1;
      LastShownCounts(ev, n);
      forall j | ShownLast(ev, j, i)
        ensures InForce(ev, i) == Some(ev[j].geom)
      {
        if j < n { assert ShownLast(ev, j, n) && !ev[n].Shown?; }
      }
    }
  }

  /** Event `j` is the last before `i` to show a geometry. */
  predicate ShownLast(ev: seq<Event>, j: int, i: int) {
    0 <= j < i <= |ev| && ev[j].Shown? && forall k | j < k < i :: !ev[k].Shown?
  }

  /** A clean log puts the clicked pixel's tile at the centre of the view: the logged camera plus
      half the view, around the torus, is the logged tile, which is the one drawn under the pixel. */
  lemma {:induction false} CleanClickCentresTile(ev: seq<Event>, i: nat)
    requires i < |ev| && ev[i].Click? && Right(ev, i)
    ensures var e, g := ev[i], InForce(ev, i).value;
            && (e.cc + g.h.view / 64) % g.h.m == e.tc
            && (e.cr + g.v.view / 64) % g.v.m == e.tr
            && g.h.Cell(e.x) == g.h.CellOfTile(e.tc) && g.v.Cell(e.y) == g.v.CellOfTile(e.tr)
  {
    var e, g := ev[i], InForce(ev, i).value;
    CameraCentres(g.h, e.tc, e.cc);
    CameraCentres(g.v, e.tr, e.cr);
    CellsAndTilesBijective(g.h, g.h.Cell(e.x), e.tc);
    CellsAndTilesBijective(g.v, g.v.Cell(e.y), e.tr);
  }
}
