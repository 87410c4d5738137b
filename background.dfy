/** background.py: the star field and the cave corridor generator.

    The corridor is an ordered list of pieces, oldest (leftmost) first. Each
    piece is one column of the open corridor, `size` pixels wide and a whole
    number of cells tall; the wall is whatever no piece covers. Every tick the
    whole list is translated, the oldest piece is retired once it has left
    the boundary and a new piece is appended while the newest is on screen. */
module Background {
  import opened PyLib
  import opened Rects

  // ---------------------------------------------------------------------
  // Starscape

  datatype Star = Star(rect: Rect, colour: Colour)

  /** The random draws for one star: choice indices for its two `randint`
      calls and its `random.choice` of a size. */
  datatype StarDraw = StarDraw(x: nat, y: nat, size: nat)

  const StarSizes: seq<int> := [2, 2, 2, 2, 3, 4]

  const White := Colour(255, 255, 255)

  /** One star: a white square of size 2, 3 or 4 whose corner lies in the
      boundary's extent, both ends included. */
  function MakeStar(boundary: Rect, d: StarDraw): (s: Star)
    requires boundary.w >= 0 && boundary.h >= 0
    ensures 0 <= s.rect.x <= boundary.w && 0 <= s.rect.y <= boundary.h
    ensures s.rect.w == s.rect.h && 2 <= s.rect.w <= 4
    ensures s.colour == White
  {
    var size := Choice(StarSizes, d.size);
    Star(Rect(RandInt(0, boundary.w, d.x), RandInt(0, boundary.h, d.y), size, size), White)
  }

  class Starscape {
    const amount: nat
    const boundary: Rect
    var stars: seq<Star>

    constructor (boundary: Rect, draws: seq<StarDraw>)
      requires boundary.w >= 0 && boundary.h >= 0
      requires |draws| == 350
      ensures this.boundary == boundary && amount == 350
      ensures |stars| == amount
      ensures forall i :: 0 <= i < amount ==> stars[i] == MakeStar(boundary, draws[i])
    {
      amount := 350;
      this.boundary := boundary;
      new;
      Generate(draws);
    }

    /** `_generate`: one star per draw, in order. */
    method Generate(draws: seq<StarDraw>)
      requires boundary.w >= 0 && boundary.h >= 0
      requires |draws| == amount
      modifies this`stars
      ensures |stars| == amount
      ensures forall i :: 0 <= i < amount ==> stars[i] == MakeStar(boundary, draws[i])
    {
      stars := [];
      var s := 0;
      while s < amount
        invariant 0 <= s <= amount && |stars| == s
        invariant forall i :: 0 <= i < s ==> stars[i] == MakeStar(boundary, draws[i])
      {
        stars := stars + [MakeStar(boundary, draws[s])];
        s := s + 1;
      }
    }
  }

  // ---------------------------------------------------------------------
  // Cave pieces and the corridor's configuration

  datatype CavePiece = CavePiece(rect: Rect, colour: Colour) {
    function Move(dx: int, dy: int): CavePiece
    {
      this.(rect := rect.Move(dx, dy))
    }
  }

  /** The attributes `Cave.__init__` sets once: lengths in pixels, `cols`,
      `rows` (the two entries of `scale`) and the gap limits in cells. */
  datatype CaveConfig = CaveConfig(
    boundary: Rect, size: int, cols: int, rows: int, colour: Colour,
    gapMinimum: int, gapMaximum: int, pieceDifference: int)

  function MakeConfig(boundary: Rect, size: int, colour: Colour): CaveConfig
    requires size > 0
  {
    var rows := RoundHalfEven(boundary.h, size);
    CaveConfig(boundary, size, RoundHalfEven(boundary.w, size), rows, colour, 10, rows - 2, 1)
  }

  /** The limits the constructor fixes, with a non-empty gap range
      (otherwise the first `randint` raises). */
  predicate ConfigValid(c: CaveConfig)
  {
    && c.size > 0
    && c.gapMinimum == 10 && c.gapMaximum == c.rows - 2 && c.pieceDifference == 1
    && c.gapMinimum <= c.gapMaximum
  }

  /** `int(piece.rect.height / size)`: the piece's gap, in cells. */
  function GapSize(c: CaveConfig, p: CavePiece): int
    requires c.size > 0
  {
    TruncDiv(p.rect.h, c.size)
  }

  /** `int(piece.rect.y / size)`: the cell row of the piece's top edge. */
  function TopRow(c: CaveConfig, p: CavePiece): int
    requires c.size > 0
  {
    TruncDiv(p.rect.y, c.size)
  }

  /** The two-sided `if` that keeps a drawn gap within the limits. */
  function Clamp(g: int, lo: int, hi: int): (r: int)
    requires lo <= hi
    ensures lo <= r <= hi
    ensures lo <= g <= hi ==> r == g
  {
    if g < lo then lo else if g > hi then hi else g
  }

  /** Clamping never moves a value away from a point inside the range. */
  lemma ClampTowards(g: int, q: int, lo: int, hi: int)
    requires lo <= q <= hi
    ensures Abs(Clamp(g, lo, hi) - q) <= Abs(g - q)
  {
  }

  /** The draws one `spawn_cave` call makes: choice indices for
      `randint(0, piece_difference)` and for the gap's `randint`, and the
      outcome of `random.choice([difference, -difference])` (true picks the
      negated value). The first piece uses only `gap`. */
  datatype Draw = Draw(step: nat, negate: bool, gap: nat)

  function Difference(c: CaveConfig, d: Draw): (diff: int)
    requires c.pieceDifference >= 0
    ensures Abs(diff) <= c.pieceDifference
  {
    var step := RandInt(0, c.pieceDifference, d.step);
    if d.negate then -step else step
  }

  /** The piece `spawn_cave` appends to `ps`. The first piece starts at the
      boundary's right edge with a gap drawn from the limits and is centred
      vertically (`round(leftover) / 2` rows; the half row a pygame `Rect`
      truncates). Every later one starts at the previous piece's right edge,
      moves its top row by `difference` and draws its gap within
      `|difference|` of the previous gap, clamped into the limits. */
  function NewPiece(c: CaveConfig, ps: seq<CavePiece>, d: Draw): CavePiece
    requires ConfigValid(c)
  {
    if |ps| == 0 then
      var gap := RandInt(c.gapMinimum, c.gapMaximum, d.gap);
      var leftover := c.rows - gap;
      CavePiece(Rect(c.boundary.Right(), TruncDiv(leftover * c.size, 2), c.size, c.size * gap), c.colour)
    else
      var previous := ps[|ps| - 1];
      var diff := Difference(c, d);
      var top := TopRow(c, previous) + diff;
      var previousSize := GapSize(c, previous);
      var drawn := RandInt(previousSize - Abs(diff), previousSize + Abs(diff), d.gap);
      var gap := Clamp(drawn, c.gapMinimum, c.gapMaximum);
      CavePiece(Rect(previous.rect.Right(), top * c.size, c.size, c.size * gap), c.colour)
  }

  // ---------------------------------------------------------------------
  // The corridor invariant

  /** One column: `size` wide, a whole number of cells tall, the gap within
      the limits, drawn in the cave's colour. */
  predicate PieceShaped(c: CaveConfig, p: CavePiece)
    requires c.size > 0
  {
    && p.rect.w == c.size
    && p.rect.h == c.size * GapSize(c, p)
    && c.gapMinimum <= GapSize(c, p) <= c.gapMaximum
    && p.colour == c.colour
  }

  /** `q` directly follows `p`: it starts where `p` ends, its gap differs by
      at most `piece_difference` cells, and its top edge by less than
      `piece_difference + 1` cells. All three survive translation. */
  predicate Follows(c: CaveConfig, p: CavePiece, q: CavePiece)
    requires c.size > 0
  {
    && q.rect.x == p.rect.Right()
    && Abs(GapSize(c, q) - GapSize(c, p)) <= c.pieceDifference
    && Abs(q.rect.y - p.rect.y) < c.size * (c.pieceDifference + 1)
  }

  predicate WellFormed(c: CaveConfig, ps: seq<CavePiece>)
    requires c.size > 0
  {
    && (forall i :: 0 <= i < |ps| ==> PieceShaped(c, ps[i]))
    && (forall i :: 0 < i < |ps| ==> Follows(c, ps[i - 1], ps[i]))
  }

  /** Every spawned piece is shaped and continues the corridor at the
      previous piece's right edge (or, for the first, the boundary's). */
  lemma NewPieceShape(c: CaveConfig, ps: seq<CavePiece>, d: Draw)
    requires ConfigValid(c)
    ensures PieceShaped(c, NewPiece(c, ps, d))
    ensures NewPiece(c, ps, d).rect.x == if ps == [] then c.boundary.Right() else ps[|ps| - 1].rect.Right()
  {
    var q := NewPiece(c, ps, d);
    var gap :| q.rect.h == c.size * gap && c.gapMinimum <= gap <= c.gapMaximum;
    TruncDivOfMultiple(gap, c.size);
  }

  /** The first piece is centred: the wall above it and the wall below it,
      measured against `rows` cells, differ by at most one pixel. */
  lemma FirstPieceCentred(c: CaveConfig, d: Draw)
    requires ConfigValid(c)
    ensures var p := NewPiece(c, [], d);
      2 * p.rect.y <= c.size * c.rows - p.rect.h <= 2 * p.rect.y + 1
  {
    var gap := RandInt(c.gapMinimum, c.gapMaximum, d.gap);
    var p := NewPiece(c, [], d);
    var leftover := c.rows - gap;
    assert p.rect.y == TruncDiv(leftover * c.size, 2) && p.rect.h == c.size * gap;
    WallsAroundGap(c.size, c.rows, gap);
  }

  /** The rows left over by a gap within the limits cover a non-negative
      height, the difference of the two products. */
  lemma WallsAroundGap(size: int, rows: int, gap: int)
    requires size > 0 && gap <= rows - 2
    ensures (rows - gap) * size >= 0
    ensures (rows - gap) * size == size * rows - size * gap
  {
  }

  /** One-step smoothness at spawn time: the new top edge lies on the cell
      grid, its row is within `piece_difference` of the previous piece's row,
      and (when the previous gap is within the limits) the gap moves by no
      more than the row does; in particular an unchanged row keeps the gap. */
  lemma NewPieceSteps(c: CaveConfig, ps: seq<CavePiece>, d: Draw)
    requires ConfigValid(c) && ps != []
    ensures var p, q := ps[|ps| - 1], NewPiece(c, ps, d);
      && q.rect.y == c.size * TopRow(c, q)
      && Abs(TopRow(c, q) - TopRow(c, p)) <= c.pieceDifference
      && (c.gapMinimum <= GapSize(c, p) <= c.gapMaximum ==>
            Abs(GapSize(c, q) - GapSize(c, p)) <= Abs(TopRow(c, q) - TopRow(c, p)))
  {
    var p, q := ps[|ps| - 1], NewPiece(c, ps, d);
    var diff := Difference(c, d);
    var top := TopRow(c, p) + diff;
    assert q.rect.y == top * c.size;
    assert top * c.size == c.size * top;
    TruncDivOfMultiple(top, c.size);
    var previousSize := GapSize(c, p);
    var drawn := RandInt(previousSize - Abs(diff), previousSize + Abs(diff), d.gap);
    var gap := Clamp(drawn, c.gapMinimum, c.gapMaximum);
    TruncDivOfMultiple(gap, c.size);
    if c.gapMinimum <= previousSize <= c.gapMaximum {
      ClampTowards(drawn, previousSize, c.gapMinimum, c.gapMaximum);
    }
  }

  /** The spawned piece follows the previous one in the sense of `Follows`. */
  lemma NewPieceFollows(c: CaveConfig, ps: seq<CavePiece>, d: Draw)
    requires ConfigValid(c) && ps != [] && PieceShaped(c, ps[|ps| - 1])
    ensures Follows(c, ps[|ps| - 1], NewPiece(c, ps, d))
  {
    var p, q := ps[|ps| - 1], NewPiece(c, ps, d);
    NewPieceShape(c, ps, d);
    NewPieceSteps(c, ps, d);
    var t := TopRow(c, p);
    assert -c.size < c.size * t - p.rect.y < c.size;
    StepBound(c.size, p.rect.y, t, TopRow(c, q) - t);
  }

  /** A top edge snapped to row `t + diff`, with row `t` less than one cell
      from `y` (as the truncated row of `y` is), lies less than
      `(|diff| + 1)` cells from `y`. */
  lemma StepBound(s: int, y: int, t: int, diff: int)
    requires s > 0 && -s < s * t - y < s && -1 <= diff <= 1
    ensures Abs(s * (t + diff) - y) < s * (1 + 1)
  {
    var base := s * t;
    if diff == -1 {
      assert s * (t + diff) == base - s;
    } else if diff == 0 {
      assert s * (t + diff) == base;
    } else {
      assert s * (t + diff) == base + s;
    }
  }

  /** Appending a spawned piece keeps the corridor well formed. */
  lemma AppendKeepsWellFormed(c: CaveConfig, ps: seq<CavePiece>, d: Draw)
    requires ConfigValid(c) && WellFormed(c, ps)
    ensures WellFormed(c, ps + [NewPiece(c, ps, d)])
  {
    var qs := ps + [NewPiece(c, ps, d)];
    NewPieceShape(c, ps, d);
    if ps != [] {
      NewPieceFollows(c, ps, d);
    }
    assert forall i :: 0 <= i < |ps| ==> qs[i] == ps[i];
  }

  /** The pieces sit side by side in columns of width `size` ending at the
      pixel column `right`. */
  predicate Tiled(ps: seq<CavePiece>, right: int, size: int)
  {
    forall i :: 0 <= i < |ps| ==> ps[i].rect.x == right - (|ps| - i) * size
  }

  /** One round of the constructor: a piece spawned against the tiling's
      right end, then everything shifted one column left, is tiled again. */
  lemma TiledRound(ps: seq<CavePiece>, p: CavePiece, right: int, size: int)
    requires Tiled(ps, right, size)
    requires ps != [] ==> ps[|ps| - 1].rect.w == size
    requires p.rect.x == if ps == [] then right else ps[|ps| - 1].rect.Right()
    ensures Tiled(Shifted(ps + [p], -size, 0), right, size)
  {
    var qs := Shifted(ps + [p], -size, 0);
    forall i | 0 <= i < |qs|
      ensures qs[i].rect.x == right - (|qs| - i) * size
    {
      assert (|ps| + 1 - i) * size == (|ps| - i) * size + size;
      if i < |ps| {
        assert (ps + [p])[i] == ps[i];
      }
    }
  }

  /** One round of the constructor's loop: spawn a piece, then shift every
      piece one column left. */
  function PrefillRound(c: CaveConfig, ps: seq<CavePiece>, d: Draw): seq<CavePiece>
    requires ConfigValid(c)
  {
    Shifted(ps + [NewPiece(c, ps, d)], -c.size, 0)
  }

  /** The pieces the constructor leaves: one round per draw, in order. */
  function Prefill(c: CaveConfig, ds: seq<Draw>): seq<CavePiece>
    requires ConfigValid(c)
  {
    if ds == [] then [] else PrefillRound(c, Prefill(c, ds[..|ds| - 1]), ds[|ds| - 1])
  }

  /** Row smoothness between neighbours `p` and `q` as it holds before any
      vertical scroll: `q`'s top edge is on the cell grid, its row is within
      `piece_difference` of `p`'s, and its gap moves by no more than the row
      does. */
  predicate RowStep(c: CaveConfig, p: CavePiece, q: CavePiece)
    requires c.size > 0
  {
    && q.rect.y == c.size * TopRow(c, q)
    && Abs(TopRow(c, q) - TopRow(c, p)) <= c.pieceDifference
    && Abs(GapSize(c, q) - GapSize(c, p)) <= Abs(TopRow(c, q) - TopRow(c, p))
  }

  /** Every piece but the first is one row step from its left neighbour. */
  predicate RowSteps(c: CaveConfig, ps: seq<CavePiece>)
    requires c.size > 0
  {
    forall i :: 0 < i < |ps| ==> RowStep(c, ps[i - 1], ps[i])
  }

  /** Spawning keeps the row smoothness of a well-formed corridor. */
  lemma AppendKeepsRowSteps(c: CaveConfig, ps: seq<CavePiece>, d: Draw)
    requires ConfigValid(c) && WellFormed(c, ps) && RowSteps(c, ps)
    ensures RowSteps(c, ps + [NewPiece(c, ps, d)])
  {
    var q := NewPiece(c, ps, d);
    var qs := ps + [q];
    if ps != [] {
      assert PieceShaped(c, ps[|ps| - 1]);
      NewPieceSteps(c, ps, d);
      assert RowStep(c, ps[|ps| - 1], q);
    }
    forall i | 0 < i < |qs|
      ensures RowStep(c, qs[i - 1], qs[i])
    {
      if i < |ps| {
        assert qs[i - 1] == ps[i - 1] && qs[i] == ps[i];
      } else {
        assert qs[i - 1] == ps[|ps| - 1] && qs[i] == q;
      }
    }
  }

  /** A horizontal shift keeps every top edge and height, so it keeps the
      row smoothness. */
  lemma HorizontalShiftKeepsRows(c: CaveConfig, ps: seq<CavePiece>, dx: int)
    requires c.size > 0 && RowSteps(c, ps)
    ensures var qs := Shifted(ps, dx, 0);
      && (forall i :: 0 <= i < |ps| ==> qs[i].rect.y == ps[i].rect.y && qs[i].rect.h == ps[i].rect.h)
      && RowSteps(c, qs)
  {
    var qs := Shifted(ps, dx, 0);
    forall i | 0 < i < |qs|
      ensures RowStep(c, qs[i - 1], qs[i])
    {
      assert RowStep(c, ps[i - 1], ps[i]);
      assert qs[i].rect == ps[i].rect.Move(dx, 0) && qs[i - 1].rect == ps[i - 1].rect.Move(dx, 0);
    }
  }

  /** One constructor round keeps the corridor well formed and tiled in
      columns ending at the boundary's right edge. */
  lemma PrefillRoundKeeps(c: CaveConfig, ps: seq<CavePiece>, d: Draw)
    requires ConfigValid(c) && WellFormed(c, ps) && Tiled(ps, c.boundary.Right(), c.size)
    ensures var qs := PrefillRound(c, ps, d);
      |qs| == |ps| + 1 && WellFormed(c, qs) && Tiled(qs, c.boundary.Right(), c.size)
  {
    var p := NewPiece(c, ps, d);
    AppendKeepsWellFormed(c, ps, d);
    ShiftKeepsWellFormed(c, ps + [p], -c.size, 0);
    NewPieceShape(c, ps, d);
    if ps != [] {
      assert PieceShaped(c, ps[|ps| - 1]);
    }
    TiledRound(ps, p, c.boundary.Right(), c.size);
  }

  /** One constructor round keeps the row smoothness and the top edge and
      height of the first piece. */
  lemma PrefillRoundRows(c: CaveConfig, ps: seq<CavePiece>, d: Draw)
    requires ConfigValid(c) && WellFormed(c, ps) && RowSteps(c, ps)
    ensures var qs := PrefillRound(c, ps, d);
      && RowSteps(c, qs)
      && qs[0].rect.y == (ps + [NewPiece(c, ps, d)])[0].rect.y
      && qs[0].rect.h == (ps + [NewPiece(c, ps, d)])[0].rect.h
  {
    var spawned := ps + [NewPiece(c, ps, d)];
    AppendKeepsRowSteps(c, ps, d);
    HorizontalShiftKeepsRows(c, spawned, -c.size);
    assert PrefillRound(c, ps, d)[0].rect == spawned[0].rect.Move(-c.size, 0);
  }

  /** What construction guarantees: one piece per draw, well formed, tiled
      in columns ending at the boundary's right edge, row-smooth, and the
      first piece still at the top edge and height it was spawned with. */
  lemma {:induction false} PrefillShape(c: CaveConfig, ds: seq<Draw>)
    requires ConfigValid(c)
    ensures var ps := Prefill(c, ds);
      && |ps| == |ds|
      && WellFormed(c, ps) && RowSteps(c, ps) && Tiled(ps, c.boundary.Right(), c.size)
      && (ds != [] ==>
            ps[0].rect.y == NewPiece(c, [], ds[0]).rect.y && ps[0].rect.h == NewPiece(c, [], ds[0]).rect.h)
  {
    if ds != [] {
      var init := ds[..|ds| - 1];
      PrefillShape(c, init);
      PrefillRoundKeeps(c, Prefill(c, init), ds[|ds| - 1]);
      PrefillRoundRows(c, Prefill(c, init), ds[|ds| - 1]);
      if init != [] {
        assert init[0] == ds[0];
      }
    }
  }

  /** Right after construction the oldest piece is the centred first spawn:
      the walls above and below it differ by at most one pixel. */
  lemma PrefillFirstCentred(c: CaveConfig, ds: seq<Draw>)
    requires ConfigValid(c) && ds != []
    ensures var p := Prefill(c, ds)[0];
      2 * p.rect.y <= c.size * c.rows - p.rect.h <= 2 * p.rect.y + 1
  {
    PrefillShape(c, ds);
    FirstPieceCentred(c, ds[0]);
  }

  /** `Cave.move`: every piece translated by the same vector. */
  function Shifted(ps: seq<CavePiece>, dx: int, dy: int): seq<CavePiece>
  {
    seq(|ps|, i requires 0 <= i < |ps| => ps[i].Move(dx, dy))
  }

  /** Translation keeps the corridor well formed: contiguity, shapes and the
      smoothness bounds are all differences of coordinates. */
  lemma ShiftKeepsWellFormed(c: CaveConfig, ps: seq<CavePiece>, dx: int, dy: int)
    requires c.size > 0 && WellFormed(c, ps)
    ensures WellFormed(c, Shifted(ps, dx, dy))
  {
    var qs := Shifted(ps, dx, dy);
    forall i | 0 <= i < |qs|
      ensures PieceShaped(c, qs[i])
    {
      assert qs[i].rect.h == ps[i].rect.h;
    }
    forall i | 0 < i < |qs|
      ensures Follows(c, qs[i - 1], qs[i])
    {
      assert Follows(c, ps[i - 1], ps[i]);
    }
  }

  /** Row smoothness is not kept by scrolling: two neighbours 30 pixels
      apart vertically, translated up by 15, stay well formed, yet
      truncating `y / size` toward zero puts their rows two apart. */
  lemma ScrollCanSeparateRows()
    ensures var c := CaveConfig(Rect(0, 0, 640, 480), 20, 32, 24, Colour(0, 0, 0), 10, 22, 1);
      var ps := [CavePiece(Rect(0, -30, 20, 200), c.colour), CavePiece(Rect(20, 0, 20, 200), c.colour)];
      var qs := Shifted(ps, 0, -15);
      && ConfigValid(c) && WellFormed(c, ps) && WellFormed(c, qs)
      && Abs(TopRow(c, ps[1]) - TopRow(c, ps[0])) == 1
      && Abs(TopRow(c, qs[1]) - TopRow(c, qs[0])) == 2
  {
    var c := CaveConfig(Rect(0, 0, 640, 480), 20, 32, 24, Colour(0, 0, 0), 10, 22, 1);
    var ps := [CavePiece(Rect(0, -30, 20, 200), c.colour), CavePiece(Rect(20, 0, 20, 200), c.colour)];
    var qs := Shifted(ps, 0, -15);
    assert qs[0].rect.y == -45 && qs[1].rect.y == -15;
    assert TruncDiv(200, 20) == 10;
    ShiftKeepsWellFormed(c, ps, 0, -15);
  }

  /** `check_delete` on a non-empty list: the first piece goes exactly when it
      no longer overlaps the boundary. */
  function AfterDelete(c: CaveConfig, ps: seq<CavePiece>): seq<CavePiece>
    requires ps != []
  {
    if c.boundary.CollideRect(ps[0].rect) then ps else ps[1..]
  }

  /** Retirement removes at most the oldest piece and keeps the rest in
      order, so the corridor stays well formed. */
  lemma DeleteKeepsWellFormed(c: CaveConfig, ps: seq<CavePiece>)
    requires c.size > 0 && WellFormed(c, ps) && ps != []
    ensures WellFormed(c, AfterDelete(c, ps))
    ensures AfterDelete(c, ps) == ps[(if c.boundary.CollideRect(ps[0].rect) then 0 else 1)..]
  {
    var qs := AfterDelete(c, ps);
    if !c.boundary.CollideRect(ps[0].rect) {
      forall i | 0 < i < |qs|
        ensures Follows(c, qs[i - 1], qs[i])
      {
        assert qs[i - 1] == ps[i] && qs[i] == ps[i + 1];
      }
    }
  }

  /** `check_spawn` on a non-empty list: one piece is appended exactly when
      the newest piece still overlaps the boundary. */
  function AfterSpawn(c: CaveConfig, ps: seq<CavePiece>, d: Draw): seq<CavePiece>
    requires ConfigValid(c) && ps != []
  {
    if c.boundary.CollideRect(ps[|ps| - 1].rect) then ps + [NewPiece(c, ps, d)] else ps
  }

  // ---------------------------------------------------------------------
  // The wall-hit test

  /** The pieces `check_wall_hit` inspects:
      `pieces[int(cols * 0.3):int(cols * 0.6)]`. */
  function Band(c: CaveConfig, ps: seq<CavePiece>): seq<CavePiece>
  {
    Slice(ps, TruncDiv(c.cols * 3, 10), TruncDiv(c.cols * 6, 10))
  }

  /** `topleft`, `topright`, `bottomleft`, `bottomright`. */
  function Corners(r: Rect): seq<(int, int)>
  {
    [(r.x, r.y), (r.Right(), r.y), (r.x, r.Bottom()), (r.Right(), r.Bottom())]
  }

  predicate Covered(band: seq<CavePiece>, pt: (int, int))
  {
    exists p :: p in band && p.rect.CollidePoint(pt.0, pt.1)
  }

  /** The loop of `check_wall_hit`: mark each corner some piece of the band
      contains, then report whether any corner stayed unmarked. */
  method ScanCorners(band: seq<CavePiece>, player: Rect) returns (hit: bool)
    ensures hit == WallHit(band, player)
  {
    var cs := Corners(player);
    var corners := [false, false, false, false];
    var i := 0;
    while i < |band|
      invariant 0 <= i <= |band| && |corners| == 4
      invariant corners[0] == PrefixCovered(band, i, cs[0]) && corners[1] == PrefixCovered(band, i, cs[1])
      invariant corners[2] == PrefixCovered(band, i, cs[2]) && corners[3] == PrefixCovered(band, i, cs[3])
    {
      var piece := band[i];
      if piece.rect.CollidePoint(player.x, player.y) {
        corners := corners[0 := true];
      }
      if piece.rect.CollidePoint(player.Right(), player.y) {
        corners := corners[1 := true];
      }
      if piece.rect.CollidePoint(player.x, player.Bottom()) {
        corners := corners[2 := true];
      }
      if piece.rect.CollidePoint(player.Right(), player.Bottom()) {
        corners := corners[3 := true];
      }
      i := i + 1;
    }
    PrefixCoveredAll(band, cs[0]);
    PrefixCoveredAll(band, cs[1]);
    PrefixCoveredAll(band, cs[2]);
    PrefixCoveredAll(band, cs[3]);
    hit := false in corners;
    assert hit <==> exists k :: 0 <= k < 4 && !corners[k];
  }

  /** Some piece among the first `n` of the band contains the point: the
      mark the scan has set after `n` pieces. */
  predicate PrefixCovered(band: seq<CavePiece>, n: nat, pt: (int, int))
    requires n <= |band|
  {
    n > 0 && (PrefixCovered(band, n - 1, pt) || band[n - 1].rect.CollidePoint(pt.0, pt.1))
  }

  lemma {:induction false} PrefixCoveredAt(band: seq<CavePiece>, n: nat, pt: (int, int))
    requires n <= |band|
    ensures PrefixCovered(band, n, pt) <==> exists j :: 0 <= j < n && band[j].rect.CollidePoint(pt.0, pt.1)
  {
    if n > 0 {
      PrefixCoveredAt(band, n - 1, pt);
    }
  }

  /** After the whole band the mark is set exactly when some piece contains
      the point. */
  lemma PrefixCoveredAll(band: seq<CavePiece>, pt: (int, int))
    ensures PrefixCovered(band, |band|, pt) == Covered(band, pt)
  {
    PrefixCoveredAt(band, |band|, pt);
    if Covered(band, pt) {
      var p :| p in band && p.rect.CollidePoint(pt.0, pt.1);
      var j :| 0 <= j < |band| && band[j] == p;
    }
  }

  /** The player has hit the wall when some corner lies in no inspected
      piece of the open corridor. */
  predicate WallHit(band: seq<CavePiece>, player: Rect)
  {
    exists k :: 0 <= k < 4 && !Covered(band, Corners(player)[k])
  }

  /** A band with no pieces (a cave shorter than the band's start) always
      reports a hit. */
  lemma ShortCaveHits(c: CaveConfig, ps: seq<CavePiece>, player: Rect)
    requires c.cols >= 0 && |ps| <= TruncDiv(c.cols * 3, 10)
    ensures Band(c, ps) == [] && WallHit(Band(c, ps), player)
  {
    assert !Covered([], Corners(player)[0]);
  }

  /** An uncovered top-left corner is a hit. */
  lemma UncoveredCornerHits(band: seq<CavePiece>, player: Rect)
    requires forall p :: p in band ==> !p.rect.CollidePoint(player.x, player.y)
    ensures WallHit(band, player)
  {
    assert !Covered(band, Corners(player)[0]);
  }

  /** No hit when one inspected piece's column holds both left corners inside
      its gap and another's holds both right corners. */
  lemma CornersInsideGapDoNotHit(band: seq<CavePiece>, player: Rect, a: CavePiece, b: CavePiece)
    requires a in band && b in band && player.h >= 0
    requires a.rect.x <= player.x < a.rect.Right()
    requires b.rect.x <= player.Right() < b.rect.Right()
    requires a.rect.y <= player.y && player.Bottom() < a.rect.Bottom()
    requires b.rect.y <= player.y && player.Bottom() < b.rect.Bottom()
    ensures !WallHit(band, player)
  {
    var cs := Corners(player);
    assert a.rect.CollidePoint(cs[0].0, cs[0].1) && a.rect.CollidePoint(cs[2].0, cs[2].1);
    assert b.rect.CollidePoint(cs[1].0, cs[1].1) && b.rect.CollidePoint(cs[3].0, cs[3].1);
    forall k | 0 <= k < 4
      ensures Covered(band, cs[k])
    {
      if k == 0 || k == 2 { assert a in band; } else { assert b in band; }
    }
  }

  // ---------------------------------------------------------------------
  // The cave

  class Cave {
    const cfg: CaveConfig
    var pieces: seq<CavePiece>

    ghost predicate Valid()
      reads this
    {
      ConfigValid(cfg) && WellFormed(cfg, pieces)
    }

    /** `__init__`: `round(width / size)` rounds of spawn-then-shift-left,
        which leaves the pieces tiling the columns that end at the
        boundary's right edge. */
    constructor (boundary: Rect, size: int, colour: Colour, draws: seq<Draw>)
      requires size > 0
      requires RoundHalfEven(boundary.h, size) >= 12
      requires |draws| >= RoundHalfEven(boundary.w, size)
      ensures Valid() && cfg == MakeConfig(boundary, size, colour)
      ensures |pieces| == if cfg.cols < 0 then 0 else cfg.cols
      ensures forall i :: 0 <= i < |pieces| ==> pieces[i].rect.x == boundary.Right() - (|pieces| - i) * size
      ensures pieces == Prefill(cfg, draws[..if cfg.cols < 0 then 0 else cfg.cols])
    {
      cfg := MakeConfig(boundary, size, colour);
      pieces := [];
      new;
      var length := RoundHalfEven(boundary.w, size);
      Build(length, draws);
    }

    /** The constructor's `for square in range(length)` loop: spawn a piece
        at the right edge, then shift every piece one column left. */
    method Build(length: int, draws: seq<Draw>)
      requires Valid() && pieces == [] && |draws| >= length
      modifies this
      ensures Valid()
      ensures |pieces| == if length < 0 then 0 else length
      ensures Tiled(pieces, cfg.boundary.Right(), cfg.size)
      ensures pieces == Prefill(cfg, draws[..if length < 0 then 0 else length])
    {
      var square := 0;
      while square < length
        invariant Valid()
        invariant 0 <= square <= if length < 0 then 0 else length
        invariant pieces == Prefill(cfg, draws[..square])
      {
        ghost var before := pieces;
        SpawnCave(draws[square]);
        Move((-cfg.size, 0));
        assert draws[..square + 1][..square] == draws[..square];
        assert pieces == PrefillRound(cfg, before, draws[square]);
        square := square + 1;
      }
      PrefillShape(cfg, draws[..square]);
    }

    /** `spawn_cave`. */
    method SpawnCave(draw: Draw)
      requires Valid()
      modifies this
      ensures Valid()
      ensures pieces == old(pieces) + [NewPiece(cfg, old(pieces), draw)]
    {
      AppendKeepsWellFormed(cfg, pieces, draw);
      pieces := pieces + [NewPiece(cfg, pieces, draw)];
    }

    /** `move`: each piece's rect is rebound to its translated copy. */
    method Move(movement: (int, int))
      requires Valid()
      modifies this
      ensures Valid()
      ensures pieces == Shifted(old(pieces), movement.0, movement.1)
    {
      ghost var before := pieces;
      var i := 0;
      while i < |pieces|
        invariant 0 <= i <= |pieces| == |before|
        invariant forall k :: 0 <= k < i ==> pieces[k] == before[k].Move(movement.0, movement.1)
        invariant forall k :: i <= k < |pieces| ==> pieces[k] == before[k]
      {
        pieces := pieces[i := pieces[i].Move(movement.0, movement.1)];
        i := i + 1;
      }
      ShiftKeepsWellFormed(cfg, before, movement.0, movement.1);
    }

    /** `check_delete`; `pieces[0]` raises on an empty list. */
    method CheckDelete() returns (r: Result<()>)
      requires Valid()
      modifies this
      ensures Valid()
      ensures old(pieces) == [] ==> r == Err(IndexError) && pieces == old(pieces)
      ensures old(pieces) != [] ==> r == Ok(()) && pieces == AfterDelete(cfg, old(pieces))
    {
      if |pieces| == 0 {
        return Err(IndexError);
      }
      DeleteKeepsWellFormed(cfg, pieces);
      if !cfg.boundary.CollideRect(pieces[0].rect) {
        pieces := pieces[1..];
      }
      r := Ok(());
    }

    /** `check_spawn`; `pieces[len(pieces) - 1]` raises on an empty list. */
    method CheckSpawn(draw: Draw) returns (r: Result<()>)
      requires Valid()
      modifies this
      ensures Valid()
      ensures old(pieces) == [] ==> r == Err(IndexError) && pieces == old(pieces)
      ensures old(pieces) != [] ==> r == Ok(()) && pieces == AfterSpawn(cfg, old(pieces), draw)
    {
      if |pieces| == 0 {
        return Err(IndexError);
      }
      if cfg.boundary.CollideRect(pieces[|pieces| - 1].rect) {
        SpawnCave(draw);
      }
      r := Ok(());
    }

    /** `check_wall_hit`: scan the open corridor's band of pieces. */
    method CheckWallHit(player: Rect) returns (hit: bool)
      ensures hit == WallHit(Band(cfg, pieces), player)
    {
      var band := Band(cfg, pieces);
      hit := ScanCorners(band, player);
    }

    /** `update`: scroll, retire, extend, then test the player against the
        walls. The list operations raise once the list has run empty. */
    method Update(movement: (int, int), player: Rect, draw: Draw) returns (r: Result<bool>)
      requires Valid()
      modifies this
      ensures Valid()
      ensures r.Err? <==> old(pieces) == [] || AfterDelete(cfg, Shifted(old(pieces), movement.0, movement.1)) == []
      ensures r.Err? ==> r.error == IndexError && pieces == []
      ensures r.Ok? ==>
        && pieces == AfterSpawn(cfg, AfterDelete(cfg, Shifted(old(pieces), movement.0, movement.1)), draw)
        && r.value == WallHit(Band(cfg, pieces), player)
    {
      Move(movement);
      var deleted := CheckDelete();
      if deleted.Err? {
        return Err(deleted.error);
      }
      var spawned := CheckSpawn(draw);
      if spawned.Err? {
        return Err(spawned.error);
      }
      var hit := CheckWallHit(player);
      r := Ok(hit);
    }
  }
}
