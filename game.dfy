/** main.py: the player's angle, collision snapping and trail, and the coin
    manager. The game loop, drawing and the trigonometry that turns the angle
    into a displacement are outside the model; the displacement arrives as an
    integer vector. */
module Game {
  import opened PyLib
  import opened Rects
  import Background

  // ---------------------------------------------------------------------
  // Angle, in integer hundredths of pi (the source's 0.5 is 50)

  const FullTurn := 200
  const ClockwiseStep := -1
  const AnticlockwiseStep := 2

  /** `rollover_angle`: at or below 0 the angle is reset to 2 (pi units), at
      or above 2 to 0; a reset, not a modular wrap. */
  function Rollover(a: int): (r: int)
    ensures 0 <= r <= FullTurn
    ensures r == a <==> 0 < a < FullTurn
    ensures a <= 0 ==> r == FullTurn
    ensures a >= FullTurn ==> r == 0
  {
    if a <= 0 then FullTurn else if a >= FullTurn then 0 else a
  }

  /** Turning from inside `[0, 2]` stays inside it, and away from the limits
      the angle moves by exactly the step. */
  lemma TurnStaysInRange(a: int, amount: int)
    requires 0 <= a <= FullTurn
    requires amount == ClockwiseStep || amount == AnticlockwiseStep
    ensures 0 <= Rollover(a + amount) <= FullTurn
    ensures 0 < a + amount < FullTurn ==> Rollover(a + amount) == a + amount
  {
  }

  /** 1.99 + 0.02 lands on 0, not on the 0.01 a modular wrap would give;
      0.01 - 0.01 lands on 2 itself. */
  lemma RolloverResets()
    ensures Rollover(199 + AnticlockwiseStep) == 0 && (199 + AnticlockwiseStep) % FullTurn == 1
    ensures Rollover(1 + ClockwiseStep) == FullTurn
  {
  }

  // ---------------------------------------------------------------------
  // Move-and-snap against walls

  /** The body of `move_single_axis`'s loop for one wall: on overlap, the
      edge that leads in the direction of travel is set to the wall's
      opposite edge (the four tests run in turn). */
  function Snap(r: Rect, dx: int, dy: int, wall: Rect): Rect
  {
    if r.CollideRect(wall) then
      var r1 := if dx > 0 then r.WithRight(wall.x) else r;
      var r2 := if dx < 0 then r1.WithLeft(wall.Right()) else r1;
      var r3 := if dy > 0 then r2.WithBottom(wall.y) else r2;
      if dy < 0 then r3.WithTop(wall.Bottom()) else r3
    else
      r
  }

  /** The walls in list order; a later snap may override an earlier one. */
  function SnapAll(r: Rect, dx: int, dy: int, walls: seq<Rect>): Rect
    decreases |walls|
  {
    if walls == [] then r else SnapAll(Snap(r, dx, dy, walls[0]), dx, dy, walls[1..])
  }

  /** The edge that leads in the direction of travel lies on the wall's
      facing edge. */
  predicate Abuts(f: Rect, dx: int, dy: int, wall: Rect)
  {
    && (dx > 0 ==> f.Right() == wall.x)
    && (dx < 0 ==> f.x == wall.Right())
    && (dy > 0 ==> f.Bottom() == wall.y)
    && (dy < 0 ==> f.y == wall.Bottom())
  }

  /** A snap along one axis leaves the rectangle touching, not overlapping,
      the wall it overlapped, with the leading edge on the wall's facing
      edge. */
  lemma SnapLeavesWall(r: Rect, dx: int, dy: int, wall: Rect)
    requires (dx != 0 && dy == 0) || (dx == 0 && dy != 0)
    ensures !Snap(r, dx, dy, wall).CollideRect(wall)
    ensures r.CollideRect(wall) ==> Abuts(Snap(r, dx, dy, wall), dx, dy, wall)
  {
  }

  /** Snapping keeps width and height and touches only the moving axis. */
  lemma {:induction false} SnapAllKeepsShape(r: Rect, dx: int, dy: int, walls: seq<Rect>)
    ensures var f := SnapAll(r, dx, dy, walls);
      f.w == r.w && f.h == r.h && (dy == 0 ==> f.y == r.y) && (dx == 0 ==> f.x == r.x)
    decreases |walls|
  {
    if walls != [] {
      SnapAllKeepsShape(Snap(r, dx, dy, walls[0]), dx, dy, walls[1..]);
    }
  }

  /** After a move along one axis the rectangle is either where the move put
      it or its leading edge sits on the facing edge of one of the walls. */
  lemma {:induction false} SnapAllAbutsWall(r: Rect, dx: int, dy: int, walls: seq<Rect>)
    requires (dx != 0 && dy == 0) || (dx == 0 && dy != 0)
    ensures var f := SnapAll(r, dx, dy, walls);
      f == r || exists j :: 0 <= j < |walls| && Abuts(f, dx, dy, walls[j])
    decreases |walls|
  {
    if walls != [] {
      var r1 := Snap(r, dx, dy, walls[0]);
      SnapAllAbutsWall(r1, dx, dy, walls[1..]);
      var f := SnapAll(r, dx, dy, walls);
      if f != r1 {
        var j :| 0 <= j < |walls[1..]| && Abuts(f, dx, dy, walls[1..][j]);
        assert walls[1..][j] == walls[j + 1];
      } else if r1 != r {
        SnapLeavesWall(r, dx, dy, walls[0]);
      }
    }
  }

  /** `move`: the x axis first, then the y axis, each only when non-zero. */
  function AxisMoves(r: Rect, dx: int, dy: int, walls: seq<Rect>): Rect
  {
    var r1 := if dx != 0 then SnapAll(r.Move(dx, 0), dx, 0, walls) else r;
    if dy != 0 then SnapAll(r1.Move(0, dy), 0, dy, walls) else r1
  }

  /** A move keeps the player's size, and a zero move keeps the rectangle
      whatever the walls. */
  lemma AxisMovesKeepSize(r: Rect, dx: int, dy: int, walls: seq<Rect>)
    ensures AxisMoves(r, dx, dy, walls).w == r.w && AxisMoves(r, dx, dy, walls).h == r.h
    ensures AxisMoves(r, 0, 0, walls) == r
  {
    var r1 := if dx != 0 then SnapAll(r.Move(dx, 0), dx, 0, walls) else r;
    SnapAllKeepsShape(r.Move(dx, 0), dx, 0, walls);
    SnapAllKeepsShape(r1.Move(0, dy), 0, dy, walls);
  }

  // ---------------------------------------------------------------------
  // The trail

  /** Survives the trail's removal test `width <= decay or height <= decay`. */
  predicate Sized(r: Rect, decay: int)
  {
    r.w > decay && r.h > decay
  }

  predicate AllSized(ts: seq<Rect>, decay: int)
  {
    forall i :: 0 <= i < |ts| ==> Sized(ts[i], decay)
  }

  /** `move_ip(dx, dy)` then `inflate_ip(-decay, -decay)`: the entry shrinks
      by `decay` in each axis and stays centred, up to half a pixel, on its
      translated position. */
  function Decayed(r: Rect, dx: int, dy: int, decay: int): (d: Rect)
    ensures d.w == r.w - decay && d.h == r.h - decay
    ensures -1 <= (2 * d.x + d.w) - (2 * (r.x + dx) + r.w) <= 1
    ensures -1 <= (2 * d.y + d.h) - (2 * (r.y + dy) + r.h) <= 1
  {
    r.Move(dx, dy).Inflate(-decay, -decay)
  }

  /** What `update_tail`'s loop leaves of a trail. Each visited entry is
      translated and shrunk and kept if it is still sized; removing one while
      Python's list iterator runs makes the iterator skip the next entry,
      which stays as it was. */
  function TailStep(ts: seq<Rect>, dx: int, dy: int, decay: int): seq<Rect>
    decreases |ts|
  {
    if ts == [] then []
    else
      var r := Decayed(ts[0], dx, dy, decay);
      if Sized(r, decay) then [r] + TailStep(ts[1..], dx, dy, decay)
      else if |ts| == 1 then []
      else [ts[1]] + TailStep(ts[2..], dx, dy, decay)
  }

  /** The trail never grows in the loop, and a trail of sized entries stays
      sized (the entries it keeps are decayed survivors or skipped ones). */
  lemma {:induction false} TailStepSized(ts: seq<Rect>, dx: int, dy: int, decay: int)
    ensures |TailStep(ts, dx, dy, decay)| <= |ts|
    ensures AllSized(ts, decay) ==> AllSized(TailStep(ts, dx, dy, decay), decay)
    decreases |ts|
  {
    if ts != [] {
      var r := Decayed(ts[0], dx, dy, decay);
      if Sized(r, decay) {
        TailStepSized(ts[1..], dx, dy, decay);
        if AllSized(ts, decay) {
          assert AllSized(ts[1..], decay) by {
            forall i | 0 <= i < |ts[1..]| ensures Sized(ts[1..][i], decay) { assert ts[1..][i] == ts[i + 1]; }
          }
        }
      } else if |ts| > 1 {
        TailStepSized(ts[2..], dx, dy, decay);
        if AllSized(ts, decay) {
          assert Sized(ts[1], decay);
          assert AllSized(ts[2..], decay) by {
            forall i | 0 <= i < |ts[2..]| ensures Sized(ts[2..][i], decay) { assert ts[2..][i] == ts[i + 2]; }
          }
        }
      }
    }
  }

  /** Entry `e` comes from position `k` of the trail `ts`: it is that
      entry translated and shrunk and still sized, or that entry unchanged
      because the one before it was removed. */
  predicate FromTrail(e: Rect, ts: seq<Rect>, k: int, dx: int, dy: int, decay: int)
  {
    0 <= k < |ts| &&
    ((e == Decayed(ts[k], dx, dy, decay) && Sized(e, decay)) ||
     (k > 0 && e == ts[k] && !Sized(Decayed(ts[k - 1], dx, dy, decay), decay)))
  }

  lemma FromTrailShift(e: Rect, ts: seq<Rect>, n: nat, k: int, dx: int, dy: int, decay: int)
    requires n <= |ts| && FromTrail(e, ts[n..], k, dx, dy, decay)
    ensures FromTrail(e, ts, k + n, dx, dy, decay)
  {
    assert ts[n..][k] == ts[k + n];
    if k > 0 { assert ts[n..][k - 1] == ts[k + n - 1]; }
  }

  /** Every entry left in the trail is a visited survivor (translated,
      shrunk and still sized) or an entry skipped unchanged after its
      predecessor was removed. */
  lemma {:induction false} TailStepEntries(ts: seq<Rect>, dx: int, dy: int, decay: int)
    ensures forall e :: e in TailStep(ts, dx, dy, decay) ==> exists k :: FromTrail(e, ts, k, dx, dy, decay)
    decreases |ts|
  {
    if ts != [] {
      var r := Decayed(ts[0], dx, dy, decay);
      if Sized(r, decay) {
        var later := TailStep(ts[1..], dx, dy, decay);
        assert TailStep(ts, dx, dy, decay) == [r] + later;
        TailStepEntries(ts[1..], dx, dy, decay);
        forall e | e in TailStep(ts, dx, dy, decay) ensures exists k :: FromTrail(e, ts, k, dx, dy, decay) {
          if e == r {
            assert FromTrail(e, ts, 0, dx, dy, decay);
          } else {
            assert e in later;
            var k :| FromTrail(e, ts[1..], k, dx, dy, decay);
            FromTrailShift(e, ts, 1, k, dx, dy, decay);
          }
        }
      } else if |ts| > 1 {
        var later := TailStep(ts[2..], dx, dy, decay);
        assert TailStep(ts, dx, dy, decay) == [ts[1]] + later;
        TailStepEntries(ts[2..], dx, dy, decay);
        forall e | e in TailStep(ts, dx, dy, decay) ensures exists k :: FromTrail(e, ts, k, dx, dy, decay) {
          if e == ts[1] {
            assert FromTrail(e, ts, 1, dx, dy, decay);
          } else {
            assert e in later;
            var k :| FromTrail(e, ts[2..], k, dx, dy, decay);
            FromTrailShift(e, ts, 2, k, dx, dy, decay);
          }
        }
      }
    }
  }

  /** With no removal there is no skip: every entry is translated and
      shrunk, in order. */
  lemma {:induction false} TailStepWithoutRemoval(ts: seq<Rect>, dx: int, dy: int, decay: int)
    requires forall i :: 0 <= i < |ts| ==> Sized(Decayed(ts[i], dx, dy, decay), decay)
    ensures TailStep(ts, dx, dy, decay) == seq(|ts|, i requires 0 <= i < |ts| => Decayed(ts[i], dx, dy, decay))
    decreases |ts|
  {
    if ts != [] {
      assert Sized(Decayed(ts[0], dx, dy, decay), decay);
      TailStepWithoutRemoval(ts[1..], dx, dy, decay);
    }
  }

  /** One visit of `update_tail`'s loop at position `i`: the entry is
      translated and shrunk in place and, if it is no longer sized, the first
      entry equal to it is removed (`list.remove`). */
  function TailVisit(ts: seq<Rect>, i: nat, dx: int, dy: int, decay: int): (t: seq<Rect>)
    requires i < |ts|
    ensures |t| <= |ts|
  {
    var r := Decayed(ts[i], dx, dy, decay);
    var t := ts[i := r];
    if Sized(r, decay) then t
    else
      assert t[i] == r;
      var j := FirstIndex(t, r);
      t[..j] + t[j + 1..]
  }

  /** `update_tail`'s loop as it runs on the list it mutates: `i` is the
      position of Python's list iterator, which advances by one after every
      visit even when the visited entry was removed. */
  function TailPass(ts: seq<Rect>, i: nat, dx: int, dy: int, decay: int): seq<Rect>
    decreases |ts| + 1 - i
  {
    if i >= |ts| then ts else TailPass(TailVisit(ts, i, dx, dy, decay), i + 1, dx, dy, decay)
  }

  /** The loop never lengthens the trail. */
  lemma {:induction false} TailPassShrinks(ts: seq<Rect>, i: nat, dx: int, dy: int, decay: int)
    ensures |TailPass(ts, i, dx, dy, decay)| <= |ts|
    decreases |ts| + 1 - i
  {
    if i < |ts| {
      TailPassShrinks(TailVisit(ts, i, dx, dy, decay), i + 1, dx, dy, decay);
    }
  }

  lemma AllSizedSuffix(ts: seq<Rect>, n: nat, decay: int)
    requires AllSized(ts, decay) && n <= |ts|
    ensures AllSized(ts[n..], decay)
  {
    forall m | 0 <= m < |ts[n..]| ensures Sized(ts[n..][m], decay) {
      assert ts[n..][m] == ts[m + n];
    }
  }

  /** An entry that fails the size test equals no sized entry. */
  lemma UnsizedNotIn(ts: seq<Rect>, r: Rect, decay: int)
    requires AllSized(ts, decay) && !Sized(r, decay)
    ensures r !in ts
  {
  }

  lemma AllSizedAppend(ts: seq<Rect>, r: Rect, decay: int)
    requires AllSized(ts, decay) && Sized(r, decay)
    ensures AllSized(ts + [r], decay)
  {
    forall m | 0 <= m < |ts + [r]| ensures Sized((ts + [r])[m], decay) {
      if m < |ts| { assert (ts + [r])[m] == ts[m]; }
    }
  }

  /** A visit just after a settled prefix that keeps the visited entry
      replaces it by its decayed copy and moves the iterator past it. */
  lemma TailPassAfterKeep(done: seq<Rect>, rest: seq<Rect>, dx: int, dy: int, decay: int)
    requires rest != [] && Sized(Decayed(rest[0], dx, dy, decay), decay)
    ensures TailPass(done + rest, |done|, dx, dy, decay) ==
      TailPass((done + [Decayed(rest[0], dx, dy, decay)]) + rest[1..], |done| + 1, dx, dy, decay)
  {
    ReplaceAt(done, rest, Decayed(rest[0], dx, dy, decay));
  }

  /** A visit just after a settled prefix that removes the visited entry
      (no settled entry equals its decayed copy, so `list.remove` deletes
      the visited entry itself) moves the iterator past the entry behind. */
  lemma TailPassAfterDrop(done: seq<Rect>, rest: seq<Rect>, dx: int, dy: int, decay: int)
    requires rest != [] && !Sized(Decayed(rest[0], dx, dy, decay), decay)
    requires Decayed(rest[0], dx, dy, decay) !in done
    ensures TailPass(done + rest, |done|, dx, dy, decay) == TailPass(done + rest[1..], |done| + 1, dx, dy, decay)
  {
    TailVisitDrops(done, rest, dx, dy, decay);
  }

  /** The visit itself: the first entry equal to the decayed copy is the
      visited one. */
  lemma TailVisitDrops(done: seq<Rect>, rest: seq<Rect>, dx: int, dy: int, decay: int)
    requires rest != [] && !Sized(Decayed(rest[0], dx, dy, decay), decay)
    requires Decayed(rest[0], dx, dy, decay) !in done
    ensures TailVisit(done + rest, |done|, dx, dy, decay) == done + rest[1..]
  {
    var r := Decayed(rest[0], dx, dy, decay);
    ReplaceAt(done, rest, r);
    var t := (done + rest)[|done| := r];
    assert t == (done + [r]) + rest[1..];
    assert t[|done|] == r;
    var j := FirstIndex(t, r);
    assert forall m :: 0 <= m < |done| ==> t[m] == done[m];
    assert j == |done|;
    RemoveAt(done, r, rest[1..]);
  }

  /** `TailStep` keeps a surviving first entry in its decayed form. */
  lemma TailStepAfterKeep(done: seq<Rect>, rest: seq<Rect>, dx: int, dy: int, decay: int)
    requires rest != [] && Sized(Decayed(rest[0], dx, dy, decay), decay)
    ensures done + TailStep(rest, dx, dy, decay) ==
      (done + [Decayed(rest[0], dx, dy, decay)]) + TailStep(rest[1..], dx, dy, decay)
  {
    var r := Decayed(rest[0], dx, dy, decay);
    var later := TailStep(rest[1..], dx, dy, decay);
    assert TailStep(rest, dx, dy, decay) == [r] + later;
    assert done + ([r] + later) == (done + [r]) + later;
  }

  /** `TailStep` drops a first entry that no longer survives and passes the
      one behind it over unchanged. */
  lemma TailStepAfterDrop(done: seq<Rect>, rest: seq<Rect>, dx: int, dy: int, decay: int)
    requires |rest| > 1 && !Sized(Decayed(rest[0], dx, dy, decay), decay)
    ensures done + TailStep(rest, dx, dy, decay) == (done + [rest[1]]) + TailStep(rest[2..], dx, dy, decay)
  {
    var later := TailStep(rest[2..], dx, dy, decay);
    assert TailStep(rest, dx, dy, decay) == [rest[1]] + later;
    assert done + ([rest[1]] + later) == (done + [rest[1]]) + later;
  }

  /** On a trail of sized entries the loop does what `TailStep` says: the
      entry removed is always the one just visited (no earlier entry can
      equal it), and the entry behind it is skipped. */
  lemma {:induction false} TailPassIsTailStep(done: seq<Rect>, rest: seq<Rect>, dx: int, dy: int, decay: int)
    requires AllSized(done, decay) && AllSized(rest, decay)
    ensures TailPass(done + rest, |done|, dx, dy, decay) == done + TailStep(rest, dx, dy, decay)
    decreases |rest|, 1
  {
    if rest != [] {
      var r := Decayed(rest[0], dx, dy, decay);
      if Sized(r, decay) {
        TailPassKeptCase(done, rest, dx, dy, decay);
      } else {
        UnsizedNotIn(done, r, decay);
        if |rest| == 1 {
          TailPassLastDropped(done, rest, dx, dy, decay);
        } else {
          TailPassSkipCase(done, rest, dx, dy, decay);
        }
      }
    }
  }

  /** The visited entry survives: it joins the settled prefix. */
  lemma {:induction false} TailPassKeptCase(done: seq<Rect>, rest: seq<Rect>, dx: int, dy: int, decay: int)
    requires AllSized(done, decay) && AllSized(rest, decay)
    requires rest != [] && Sized(Decayed(rest[0], dx, dy, decay), decay)
    ensures TailPass(done + rest, |done|, dx, dy, decay) == done + TailStep(rest, dx, dy, decay)
    decreases |rest|, 0
  {
    var r := Decayed(rest[0], dx, dy, decay);
    AllSizedSuffix(rest, 1, decay);
    AllSizedAppend(done, r, decay);
    TailPassIsTailStep(done + [r], rest[1..], dx, dy, decay);
    TailPassAfterKeep(done, rest, dx, dy, decay);
    TailStepAfterKeep(done, rest, dx, dy, decay);
  }

  /** The last entry is removed: the trail ends with the settled prefix. */
  lemma TailPassLastDropped(done: seq<Rect>, rest: seq<Rect>, dx: int, dy: int, decay: int)
    requires |rest| == 1 && !Sized(Decayed(rest[0], dx, dy, decay), decay)
    requires Decayed(rest[0], dx, dy, decay) !in done
    ensures TailPass(done + rest, |done|, dx, dy, decay) == done + TailStep(rest, dx, dy, decay)
  {
    TailPassAfterDrop(done, rest, dx, dy, decay);
    assert done + rest[1..] == done;
    assert done + TailStep(rest, dx, dy, decay) == done + [];
  }

  /** The visited entry is removed and the one behind it, skipped, joins
      the settled prefix unchanged. */
  lemma {:induction false} TailPassSkipCase(done: seq<Rect>, rest: seq<Rect>, dx: int, dy: int, decay: int)
    requires AllSized(done, decay) && AllSized(rest, decay)
    requires |rest| > 1 && !Sized(Decayed(rest[0], dx, dy, decay), decay)
    requires Decayed(rest[0], dx, dy, decay) !in done
    ensures TailPass(done + rest, |done|, dx, dy, decay) == done + TailStep(rest, dx, dy, decay)
    decreases |rest|, 0
  {
    TailPassAfterDrop(done, rest, dx, dy, decay);
    SkipFirst(done, rest);
    AllSizedSuffix(rest, 2, decay);
    AllSizedAppend(done, rest[1], decay);
    TailPassIsTailStep(done + [rest[1]], rest[2..], dx, dy, decay);
    TailStepAfterDrop(done, rest, dx, dy, decay);
  }

  /** The whole loop, from the trail's first entry, on a sized trail. */
  lemma TailPassFromStart(orig: seq<Rect>, dx: int, dy: int, decay: int)
    requires AllSized(orig, decay)
    ensures TailPass(orig, 0, dx, dy, decay) == TailStep(orig, dx, dy, decay)
  {
    var empty: seq<Rect> := [];
    assert empty + orig == orig;
    TailPassIsTailStep(empty, orig, dx, dy, decay);
  }

  /** What `update_tail` leaves once the player's rectangle is appended:
      at most one entry more, `TailStep`'s result on a sized trail, and a
      sized trail again when the player is sized too. */
  lemma TrailAfterPass(orig: seq<Rect>, rect: Rect, dx: int, dy: int, decay: int)
    ensures |TailPass(orig, 0, dx, dy, decay) + [rect]| <= |orig| + 1
    ensures AllSized(orig, decay) ==> TailPass(orig, 0, dx, dy, decay) == TailStep(orig, dx, dy, decay)
    ensures AllSized(orig, decay) && Sized(rect, decay) ==> AllSized(TailPass(orig, 0, dx, dy, decay) + [rect], decay)
  {
    TailPassShrinks(orig, 0, dx, dy, decay);
    if AllSized(orig, decay) {
      TailPassFromStart(orig, dx, dy, decay);
      TailStepSized(orig, dx, dy, decay);
      if Sized(rect, decay) {
        AllSizedAppend(TailStep(orig, dx, dy, decay), rect, decay);
      }
    }
  }

  // ---------------------------------------------------------------------
  // The player

  class Player {
    var rect: Rect
    var angle: int
    const speed: int
    const colour: Colour
    var tail: seq<Rect>
    const tailDecay: int

    /** The trail holds only sized entries whenever the player itself is
        sized (its size never changes). */
    ghost predicate Valid()
      reads this
    {
      tailDecay == 1 && (Sized(rect, tailDecay) ==> AllSized(tail, tailDecay))
    }

    constructor (rect: Rect, colour: Colour)
      ensures Valid()
      ensures this.rect == rect && angle == 50 && speed == 10 && this.colour == colour
      ensures tail == [] && tailDecay == 1
    {
      this.rect := rect;
      angle := 50;
      speed := 10;
      this.colour := colour;
      tail := [];
      tailDecay := 1;
    }

    /** `update`: the call `move(0, 0, [])` leaves the rectangle where it is
        and applies one gravity step; the trail then moves by the negated
        displacement, which is returned for the world to scroll by. */
    method Update(objects: seq<Rect>, delta: (int, int)) returns (movement: (int, int))
      requires Valid()
      modifies this`rect, this`angle, this`tail
      ensures Valid()
      ensures rect == old(rect) && angle == Rollover(old(angle) + ClockwiseStep)
      ensures movement == delta
      ensures tail == TailPass(old(tail), 0, -delta.0, -delta.1, tailDecay) + [rect]
      ensures 0 < |tail| <= |old(tail)| + 1 && tail[|tail| - 1] == rect
      ensures AllSized(old(tail), tailDecay) ==>
        tail == TailStep(old(tail), -delta.0, -delta.1, tailDecay) + [rect]
    {
      Move(0, 0, []);
      UpdateTail(-delta.0, -delta.1);
      movement := delta;
    }

    /** `apply_gravity`: one clockwise step. */
    method ApplyGravity()
      modifies this`angle
      ensures angle == Rollover(old(angle) + ClockwiseStep)
    {
      MoveClockwise();
    }

    method MoveClockwise(amount: int := ClockwiseStep)
      modifies this`angle
      ensures angle == Rollover(old(angle) + amount)
    {
      MoveAngle(amount);
      RolloverAngle();
    }

    method MoveAnticlockwise(amount: int := AnticlockwiseStep)
      modifies this`angle
      ensures angle == Rollover(old(angle) + amount)
    {
      MoveAngle(amount);
      RolloverAngle();
    }

    method MoveAngle(amount: int)
      modifies this`angle
      ensures angle == old(angle) + amount
    {
      angle := angle + amount;
    }

    method RolloverAngle()
      modifies this`angle
      ensures angle == Rollover(old(angle))
    {
      if angle <= 0 {
        angle := FullTurn;
      } else if angle >= FullTurn {
        angle := 0;
      }
    }

    /** `move`: each non-zero axis separately, then gravity. */
    method Move(dx: int, dy: int, objects: seq<Rect>)
      requires Valid()
      modifies this`rect, this`angle
      ensures Valid()
      ensures rect == AxisMoves(old(rect), dx, dy, objects)
      ensures angle == Rollover(old(angle) + ClockwiseStep)
    {
      if dx != 0 {
        MoveSingleAxis(dx, 0, objects);
      }
      if dy != 0 {
        MoveSingleAxis(0, dy, objects);
      }
      ApplyGravity();
    }

    /** `move_single_axis`: translate, then snap against each wall in turn. */
    method MoveSingleAxis(dx: int, dy: int, objects: seq<Rect>)
      requires Valid()
      modifies this`rect
      ensures Valid()
      ensures rect == SnapAll(old(rect).Move(dx, dy), dx, dy, objects)
    {
      ghost var start := rect.Move(dx, dy);
      rect := rect.Move(dx, dy);
      var i := 0;
      while i < |objects|
        invariant 0 <= i <= |objects|
        invariant SnapAll(rect, dx, dy, objects[i..]) == SnapAll(start, dx, dy, objects)
      {
        var wall := objects[i];
        if rect.CollideRect(wall) {
          if dx > 0 {
            rect := rect.WithRight(wall.x);
          }
          if dx < 0 {
            rect := rect.WithLeft(wall.Right());
          }
          if dy > 0 {
            rect := rect.WithBottom(wall.y);
          }
          if dy < 0 {
            rect := rect.WithTop(wall.Bottom());
          }
        }
        assert objects[i..][1..] == objects[i + 1..];
        i := i + 1;
      }
      assert objects[i..] == [];
      SnapAllKeepsShape(start, dx, dy, objects);
    }

    /** `update_tail`: the `for rect in self.tail` loop with its in-loop
        `remove`, then a copy of the player's rectangle appended. */
    method UpdateTail(dx: int, dy: int)
      requires Valid()
      modifies this`tail
      ensures Valid()
      ensures tail == TailPass(old(tail), 0, dx, dy, tailDecay) + [rect]
      ensures |tail| <= |old(tail)| + 1
      ensures AllSized(old(tail), tailDecay) ==> tail == TailStep(old(tail), dx, dy, tailDecay) + [rect]
    {
      ghost var orig := tail;
      DecayTail(dx, dy);
      TrailAfterPass(orig, rect, dx, dy, tailDecay);
      tail := tail + [rect];
    }

    /** The `for rect in self.tail` loop: Python's list iterator is the
        index `i`, which moves on after every visit. */
    method DecayTail(dx: int, dy: int)
      modifies this`tail
      ensures tail == TailPass(old(tail), 0, dx, dy, tailDecay)
    {
      ghost var orig := tail;
      var i := 0;
      while i < |tail|
        invariant TailPass(tail, i, dx, dy, tailDecay) == TailPass(orig, 0, dx, dy, tailDecay)
        decreases |tail| + 1 - i
      {
        VisitTail(i, dx, dy);
        i := i + 1;
      }
    }

    /** One pass of the loop body at the iterator's position `i`: translate
        and shrink the entry in place, and remove it (the first entry equal
        to it) once it is too small. */
    method VisitTail(i: nat, dx: int, dy: int)
      requires i < |tail|
      modifies this`tail
      ensures tail == TailVisit(old(tail), i, dx, dy, tailDecay)
    {
      var r := Decayed(tail[i], dx, dy, tailDecay);
      tail := tail[i := r];
      if r.w <= tailDecay || r.h <= tailDecay {
        assert tail[i] == r;
        var j := FirstIndex(tail, r);
        tail := tail[..j] + tail[j + 1..];
      }
    }
  }

  // ---------------------------------------------------------------------
  // Coins

  const CoinColour := Colour(200, 200, 0)

  datatype Coin = Coin(rect: Rect, colour: Colour) {
    function Move(movement: (int, int)): Coin
    {
      this.(rect := rect.Move(movement.0, movement.1))
    }

    predicate CheckCollide(player: Rect)
    {
      rect.CollideRect(player)
    }
  }

  /** What one pass over the coins leaves: the remaining coins and how many
      were picked up and how many retired off screen. */
  datatype Sweep = Sweep(kept: seq<Coin>, picked: nat, retired: nat)

  /** `CoinManager.update`'s loop: each visited coin is moved, then removed
      and counted if it overlaps the player, else removed if it has left the
      boundary; after a removal the iterator skips the next coin, which is
      then neither moved nor examined. */
  function CoinStep(coins: seq<Coin>, movement: (int, int), player: Rect, boundary: Rect): Sweep
    decreases |coins|
  {
    if coins == [] then Sweep([], 0, 0)
    else
      var c := coins[0].Move(movement);
      if c.CheckCollide(player) || !boundary.CollideRect(c.rect) then
        var p := if c.CheckCollide(player) then 1 else 0;
        if |coins| == 1 then Sweep([], p, 1 - p)
        else
          var rest := CoinStep(coins[2..], movement, player, boundary);
          Sweep([coins[1]] + rest.kept, rest.picked + p, rest.retired + 1 - p)
      else
        var rest := CoinStep(coins[1..], movement, player, boundary);
        Sweep([c] + rest.kept, rest.picked, rest.retired)
  }

  /** A pass resumed part-way: the coins already settled and the counts so
      far, followed by the pass over the rest. */
  function Resumed(done: seq<Coin>, picked: nat, retired: nat, rest: seq<Coin>,
                   movement: (int, int), player: Rect, boundary: Rect): Sweep
  {
    var s := CoinStep(rest, movement, player, boundary);
    Sweep(done + s.kept, picked + s.picked, retired + s.retired)
  }

  /** One visit of the pass, seen from a resumed state. */
  lemma ResumedStep(done: seq<Coin>, picked: nat, retired: nat, rest: seq<Coin>,
                    movement: (int, int), player: Rect, boundary: Rect)
    requires rest != []
    ensures var c := rest[0].Move(movement);
      var p := if c.CheckCollide(player) then 1 else 0;
      Resumed(done, picked, retired, rest, movement, player, boundary) ==
        if !(c.CheckCollide(player) || !boundary.CollideRect(c.rect)) then
          Resumed(done + [c], picked, retired, rest[1..], movement, player, boundary)
        else if |rest| == 1 then
          Sweep(done, picked + p, retired + 1 - p)
        else
          Resumed(done + [rest[1]], picked + p, retired + 1 - p, rest[2..], movement, player, boundary)
  {
    var c := rest[0].Move(movement);
    if !(c.CheckCollide(player) || !boundary.CollideRect(c.rect)) {
      var s := CoinStep(rest[1..], movement, player, boundary);
      assert done + ([c] + s.kept) == (done + [c]) + s.kept;
    } else if |rest| > 1 {
      var s := CoinStep(rest[2..], movement, player, boundary);
      assert done + ([rest[1]] + s.kept) == (done + [rest[1]]) + s.kept;
    }
  }

  /** `update`'s loop as it runs on the list it mutates: `i` is the list
      iterator's position, which advances after every visit even when the
      visited coin was removed. */
  function CoinPass(coins: seq<Coin>, i: nat, movement: (int, int), player: Rect, boundary: Rect): Sweep
    decreases |coins| + 1 - i
  {
    if i >= |coins| then Sweep(coins, 0, 0)
    else
      var c := coins[i].Move(movement);
      var t := coins[i := c];
      if c.CheckCollide(player) then
        var s := CoinPass(t[..i] + t[i + 1..], i + 1, movement, player, boundary);
        Sweep(s.kept, s.picked + 1, s.retired)
      else if !boundary.CollideRect(c.rect) then
        var s := CoinPass(t[..i] + t[i + 1..], i + 1, movement, player, boundary);
        Sweep(s.kept, s.picked, s.retired + 1)
      else
        CoinPass(t, i + 1, movement, player, boundary)
  }

  /** One visit of the loop just after the coins already settled. */
  lemma CoinPassVisit(done: seq<Coin>, rest: seq<Coin>, movement: (int, int), player: Rect, boundary: Rect)
    requires rest != []
    ensures var c := rest[0].Move(movement);
      var p := if c.CheckCollide(player) then 1 else 0;
      var s := CoinPass(done + rest[1..], |done| + 1, movement, player, boundary);
      CoinPass(done + rest, |done|, movement, player, boundary) ==
        if !(c.CheckCollide(player) || !boundary.CollideRect(c.rect)) then
          CoinPass((done + [c]) + rest[1..], |done| + 1, movement, player, boundary)
        else
          Sweep(s.kept, s.picked + p, s.retired + 1 - p)
  {
    var c := rest[0].Move(movement);
    ReplaceAt(done, rest, c);
    RemoveAt(done, c, rest[1..]);
  }

  /** The loop yields `CoinStep`: the coin removed is always the one just
      visited, and the coin behind it is skipped. */
  lemma {:induction false} CoinPassIsCoinStep(done: seq<Coin>, rest: seq<Coin>,
                                              movement: (int, int), player: Rect, boundary: Rect)
    ensures CoinPass(done + rest, |done|, movement, player, boundary) == Resumed(done, 0, 0, rest, movement, player, boundary)
    decreases |rest|, 1
  {
    if rest == [] {
      assert done + rest == done;
    } else {
      var c := rest[0].Move(movement);
      if !(c.CheckCollide(player) || !boundary.CollideRect(c.rect)) {
        CoinPassKeptCase(done, rest, movement, player, boundary);
      } else if |rest| == 1 {
        CoinPassLastRemoved(done, rest, movement, player, boundary);
      } else {
        CoinPassSkipCase(done, rest, movement, player, boundary);
      }
    }
  }

  /** The visited coin stays: it joins the settled coins. */
  lemma {:induction false} CoinPassKeptCase(done: seq<Coin>, rest: seq<Coin>,
                                            movement: (int, int), player: Rect, boundary: Rect)
    requires rest != []
    requires var c := rest[0].Move(movement); !(c.CheckCollide(player) || !boundary.CollideRect(c.rect))
    ensures CoinPass(done + rest, |done|, movement, player, boundary) == Resumed(done, 0, 0, rest, movement, player, boundary)
    decreases |rest|, 0
  {
    var c := rest[0].Move(movement);
    CoinPassVisit(done, rest, movement, player, boundary);
    ResumedStep(done, 0, 0, rest, movement, player, boundary);
    CoinPassIsCoinStep(done + [c], rest[1..], movement, player, boundary);
  }

  /** The last coin is removed: only the counts change. */
  lemma CoinPassLastRemoved(done: seq<Coin>, rest: seq<Coin>,
                            movement: (int, int), player: Rect, boundary: Rect)
    requires |rest| == 1
    requires var c := rest[0].Move(movement); c.CheckCollide(player) || !boundary.CollideRect(c.rect)
    ensures CoinPass(done + rest, |done|, movement, player, boundary) == Resumed(done, 0, 0, rest, movement, player, boundary)
  {
    CoinPassVisit(done, rest, movement, player, boundary);
    ResumedStep(done, 0, 0, rest, movement, player, boundary);
    assert done + rest[1..] == done;
  }

  /** The visited coin is removed and the one behind it, skipped, joins the
      settled coins unmoved. */
  lemma {:induction false} CoinPassSkipCase(done: seq<Coin>, rest: seq<Coin>,
                                            movement: (int, int), player: Rect, boundary: Rect)
    requires |rest| > 1
    requires var c := rest[0].Move(movement); c.CheckCollide(player) || !boundary.CollideRect(c.rect)
    ensures CoinPass(done + rest, |done|, movement, player, boundary) == Resumed(done, 0, 0, rest, movement, player, boundary)
    decreases |rest|, 0
  {
    CoinPassVisit(done, rest, movement, player, boundary);
    ResumedStep(done, 0, 0, rest, movement, player, boundary);
    SkipFirst(done, rest);
    CoinPassIsCoinStep(done + [rest[1]], rest[2..], movement, player, boundary);
  }

  /** Every coin is kept, picked up or retired, exactly one of the three. */
  lemma {:induction false} CoinStepConserves(coins: seq<Coin>, movement: (int, int), player: Rect, boundary: Rect)
    ensures var s := CoinStep(coins, movement, player, boundary);
      |s.kept| + s.picked + s.retired == |coins|
    decreases |coins|
  {
    if coins != [] {
      var c := coins[0].Move(movement);
      if c.CheckCollide(player) || !boundary.CollideRect(c.rect) {
        if |coins| > 1 {
          CoinStepConserves(coins[2..], movement, player, boundary);
        }
      } else {
        CoinStepConserves(coins[1..], movement, player, boundary);
      }
    }
  }

  /** Coin `e` comes from position `k` of `coins`: it is that coin moved,
      still overlapping the boundary and missing the player, or that coin
      unmoved because the one before it, once moved, was picked up or had
      left the boundary. */
  predicate FromCoins(e: Coin, coins: seq<Coin>, k: int, movement: (int, int), player: Rect, boundary: Rect)
  {
    0 <= k < |coins| &&
    ((e == coins[k].Move(movement) && !e.CheckCollide(player) && boundary.CollideRect(e.rect)) ||
     (k > 0 && e == coins[k] &&
      (coins[k - 1].Move(movement).CheckCollide(player) || !boundary.CollideRect(coins[k - 1].Move(movement).rect))))
  }

  lemma FromCoinsShift(e: Coin, coins: seq<Coin>, n: nat, k: int, movement: (int, int), player: Rect, boundary: Rect)
    requires n <= |coins| && FromCoins(e, coins[n..], k, movement, player, boundary)
    ensures FromCoins(e, coins, k + n, movement, player, boundary)
  {
    assert coins[n..][k] == coins[k + n];
    if k > 0 { assert coins[n..][k - 1] == coins[k + n - 1]; }
  }

  /** A coin that remains after the pass is either a visited one that was
      moved, still overlaps the boundary and misses the player, or the one
      right after a removed coin, skipped and left as it was. */
  lemma {:induction false} CoinStepKept(coins: seq<Coin>, movement: (int, int), player: Rect, boundary: Rect)
    ensures forall e :: e in CoinStep(coins, movement, player, boundary).kept ==>
      exists k :: FromCoins(e, coins, k, movement, player, boundary)
    decreases |coins|
  {
    if coins != [] {
      var c := coins[0].Move(movement);
      if c.CheckCollide(player) || !boundary.CollideRect(c.rect) {
        if |coins| > 1 {
          var later := CoinStep(coins[2..], movement, player, boundary).kept;
          assert CoinStep(coins, movement, player, boundary).kept == [coins[1]] + later;
          CoinStepKept(coins[2..], movement, player, boundary);
          forall e | e in CoinStep(coins, movement, player, boundary).kept
            ensures exists k :: FromCoins(e, coins, k, movement, player, boundary)
          {
            if e == coins[1] {
              assert FromCoins(e, coins, 1, movement, player, boundary);
            } else {
              assert e in later;
              var k :| FromCoins(e, coins[2..], k, movement, player, boundary);
              FromCoinsShift(e, coins, 2, k, movement, player, boundary);
            }
          }
        }
      } else {
        var later := CoinStep(coins[1..], movement, player, boundary).kept;
        assert CoinStep(coins, movement, player, boundary).kept == [c] + later;
        CoinStepKept(coins[1..], movement, player, boundary);
        forall e | e in CoinStep(coins, movement, player, boundary).kept
          ensures exists k :: FromCoins(e, coins, k, movement, player, boundary)
        {
          if e == c {
            assert FromCoins(e, coins, 0, movement, player, boundary);
          } else {
            assert e in later;
            var k :| FromCoins(e, coins[1..], k, movement, player, boundary);
            FromCoinsShift(e, coins, 1, k, movement, player, boundary);
          }
        }
      }
    }
  }

  /** When no coin is picked up or leaves the screen, every coin is moved
      and kept, in order, and the score is zero. */
  lemma {:induction false} CoinStepWithoutRemoval(coins: seq<Coin>, movement: (int, int), player: Rect, boundary: Rect)
    requires forall i :: 0 <= i < |coins| ==>
      !coins[i].Move(movement).CheckCollide(player) && boundary.CollideRect(coins[i].Move(movement).rect)
    ensures CoinStep(coins, movement, player, boundary) ==
      Sweep(seq(|coins|, i requires 0 <= i < |coins| => coins[i].Move(movement)), 0, 0)
    decreases |coins|
  {
    if coins != [] {
      assert !coins[0].Move(movement).CheckCollide(player);
      CoinStepWithoutRemoval(coins[1..], movement, player, boundary);
    }
  }

  /** A coin placed exactly over the player (after the move) is counted
      once and no longer managed. */
  lemma PickupScenario(coin: Coin, movement: (int, int), player: Rect, boundary: Rect)
    requires coin.Move(movement).rect == player && player.w > 0 && player.h > 0
    ensures CoinStep([coin], movement, player, boundary) == Sweep([], 1, 0)
  {
  }

  /** `spawn`: a coin of one cell at the newest piece's x and at a height
      drawn from its top to its bottom, both included. */
  function SpawnedCoin(size: int, piece: Background.CavePiece, draw: nat): (coin: Coin)
    requires piece.rect.h >= 0
    ensures coin.rect.x == piece.rect.x
    ensures piece.rect.y <= coin.rect.y <= piece.rect.Bottom()
    ensures coin.rect.w == size && coin.rect.h == size && coin.colour == CoinColour
  {
    Coin(Rect(piece.rect.x, RandInt(piece.rect.y, piece.rect.Bottom(), draw), size, size), CoinColour)
  }

  class CoinManager {
    const boundary: Rect
    var coins: seq<Coin>

    constructor (boundary: Rect)
      ensures this.boundary == boundary && coins == []
    {
      this.boundary := boundary;
      coins := [];
    }

    /** `check_delete`: truthy exactly when the coin has left the boundary
        (the source returns `True` or `None`). */
    predicate CheckDelete(coin: Coin)
    {
      !boundary.CollideRect(coin.rect)
    }

    /** A coin scrolled entirely past the left edge is retired; one of
        positive size lying inside a non-empty boundary is not. */
    lemma CheckDeleteOffScreen(coin: Coin)
      ensures coin.rect.Right() <= boundary.x ==> CheckDelete(coin)
      ensures (&& 0 < coin.rect.w && 0 < coin.rect.h
               && boundary.x <= coin.rect.x && coin.rect.Right() <= boundary.Right()
               && boundary.y <= coin.rect.y && coin.rect.Bottom() <= boundary.Bottom())
        ==> !CheckDelete(coin)
    {
    }

    /** `update`. `spawn` is the outcome of `check_spawn` and `yDraw` the
        choice index of `spawn`'s `randint`. The spawn reads the cave's
        newest piece, which raises on an empty cave. */
    method Update(movement: (int, int), player: Rect, cave: Background.Cave, spawn: bool, yDraw: nat)
      returns (r: Result<int>)
      requires cave.Valid()
      modifies this`coins
      ensures |coins| <= |old(coins)| + 1
      ensures var s := CoinStep(old(coins), movement, player, boundary);
        if spawn && cave.pieces == [] then
          r == Err(IndexError) && coins == s.kept
        else
          && r == Ok(s.picked)
          && coins == s.kept + if spawn then [SpawnedCoin(cave.cfg.size, cave.pieces[|cave.pieces| - 1], yDraw)] else []
    {
      CoinStepConserves(coins, movement, player, boundary);
      var score := MoveCoins(movement, player);
      if spawn {
        var spawned := Spawn(cave, yDraw);
        if spawned.Err? {
          return Err(spawned.error);
        }
      }
      r := Ok(score);
    }

    /** The loop of `update`: move each visited coin, then remove it on a
        pickup (counting it) or once it is off screen. Removal by identity is
        removal at the current index. */
    method MoveCoins(movement: (int, int), player: Rect) returns (score: int)
      modifies this`coins
      ensures var s := CoinStep(old(coins), movement, player, boundary);
        coins == s.kept && score == s.picked
    {
      ghost var orig := coins;
      ghost var retired: nat := 0;
      score := 0;
      var i := 0;
      while i < |coins|
        invariant 0 <= score
        invariant var s := CoinPass(coins, i, movement, player, boundary);
          CoinPass(orig, 0, movement, player, boundary) == Sweep(s.kept, score + s.picked, retired + s.retired)
        decreases |coins| + 1 - i
      {
        var coin := coins[i].Move(movement);
        coins := coins[i := coin];
        i := i + 1;
        if coin.CheckCollide(player) {
          score := score + 1;
          coins := coins[..i - 1] + coins[i..];
        } else if CheckDelete(coin) {
          coins := coins[..i - 1] + coins[i..];
          retired := retired + 1;
        }
      }
      assert [] + orig == orig;
      CoinPassIsCoinStep([], orig, movement, player, boundary);
    }

    /** `spawn`: append one coin in the cave's newest piece. */
    method Spawn(cave: Background.Cave, yDraw: nat) returns (r: Result<()>)
      requires cave.Valid()
      modifies this`coins
      ensures cave.pieces == [] ==> r == Err(IndexError) && coins == old(coins)
      ensures cave.pieces != [] ==>
        r == Ok(()) && coins == old(coins) + [SpawnedCoin(cave.cfg.size, cave.pieces[|cave.pieces| - 1], yDraw)]
    {
      if |cave.pieces| == 0 {
        return Err(IndexError);
      }
      var piece := cave.pieces[|cave.pieces| - 1];
      coins := coins + [SpawnedCoin(cave.cfg.size, piece, yDraw)];
      r := Ok(());
    }
  }
}
