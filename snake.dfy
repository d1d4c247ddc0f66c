/** The snake's body (src/snake.rs): its cells head first, the heading being
    applied and the heading the next move will commit to. Cell coordinates are
    stored raw and never wrapped; only comparisons translate them. */
module Body {
  import opened Utils

  datatype CellType = Head | Middle | Tail

  /** One body segment; `direction` is the way it last moved, which the
      renderer reads to interpolate. */
  datatype Cell = Cell(kind: CellType, coords: Coords, direction: Direction) {
    /** `Cell::move_to`: the position changes, nothing else does. */
    function MoveTo(c: Coords): (r: Cell)
      ensures r.coords == c && r.kind == kind && r.direction == direction
    {
      this.(coords := c)
    }
  }

  datatype Food = Food(coords: Coords)

  /** At least two cells: a Head, then Middles, then a Tail. */
  ghost predicate WellFormed(s: seq<Cell>) {
    && |s| >= 2
    && s[0].kind == Head
    && s[|s| - 1].kind == Tail
    && forall i :: 0 < i < |s| - 1 ==> s[i].kind == Middle
  }

  /** Consecutive cells one unit step apart, in raw coordinates. */
  ghost predicate Contiguous(s: seq<Cell>) {
    forall i :: 0 <= i < |s| - 1 ==> IsUnitStep(Sub(s[i].coords, s[i + 1].coords))
  }

  /** The body `Snake::new` starts with: Head and Tail on the same cell. */
  function InitialCells(): (r: seq<Cell>)
    ensures WellFormed(r)
  {
    [Cell(Head, Coords(0, 0), Right), Cell(Tail, Coords(0, 0), Right)]
  }

  /** Every cell's coordinates translated onto a `max`-wide grid, in body
      order (the map in `get_translated_cell_coords`). */
  function TranslateAll(cs: seq<Cell>, max: int): (r: seq<Coords>)
    requires max != 0
    ensures |r| == |cs|
    ensures forall i :: 0 <= i < |cs| ==> r[i] == Translate(cs[i].coords, max)
  {
    if cs == [] then [] else [Translate(cs[0].coords, max)] + TranslateAll(cs[1..], max)
  }

  /** The orientation rule of `move` for cell `i`, given the old body `s`,
      the new cells `p` built so far (at least the `i` before cell `i`) and
      the new heading `d`. The head and the cell behind it face `d`. A later
      cell faces the direction its predecessor moved in: the predecessor's
      old position minus the position it moved to, read back through
      `FromCoords`; when that is no unit step, it copies the predecessor's
      new orientation. */
  function MovedDirection(s: seq<Cell>, p: seq<Cell>, d: Direction, i: int): Direction
    requires 0 <= i <= |p| && i < |s|
  {
    if i <= 1 then d
    else FromCoords(Sub(s[i - 1].coords, s[i - 2].coords)).UnwrapOr(p[i - 1].direction)
  }

  /** Cell `i` of the new body `r` faces as the rule of `move` says. */
  ghost predicate OrientationStep(s: seq<Cell>, r: seq<Cell>, d: Direction, i: int)
    requires 0 <= i < |r| <= |s|
  {
    r[i].direction == MovedDirection(s, r, d, i)
  }

  /** `r` is the start of the body `s` becomes after one move along `d`:
      kinds stay, the head steps by `d`, every other cell takes the old
      position of the cell in front, orientations follow `OrientationStep`. */
  ghost predicate IsMovePrefix(s: seq<Cell>, r: seq<Cell>, d: Direction) {
    && |r| <= |s|
    && (|r| > 0 ==> r[0].coords == Add(s[0].coords, ToCoords(d)))
    && (forall i {:trigger r[i]} :: 0 < i < |r| ==> r[i].coords == s[i - 1].coords)
    && (forall i {:trigger r[i]} :: 0 <= i < |r| ==> r[i].kind == s[i].kind)
    && (forall i :: 0 <= i < |r| ==> OrientationStep(s, r, d, i))
  }

  /** `r` is `s` after one move along `d`. */
  ghost predicate IsMoveOf(s: seq<Cell>, r: seq<Cell>, d: Direction) {
    |r| == |s| && IsMovePrefix(s, r, d)
  }

  /** The cell `move` writes at index `|p|` once the cells before it are `p`. */
  function NextMovedCell(s: seq<Cell>, p: seq<Cell>, d: Direction): Cell
    requires |p| < |s|
  {
    var i := |p|;
    Cell(s[i].kind,
         if i == 0 then Add(s[0].coords, ToCoords(d)) else s[i - 1].coords,
         MovedDirection(s, p, d, i))
  }

  lemma MovePrefixExtends(s: seq<Cell>, p: seq<Cell>, d: Direction)
    requires |p| < |s| && IsMovePrefix(s, p, d)
    ensures IsMovePrefix(s, p + [NextMovedCell(s, p, d)], d)
  {
    var n := |p|;
    var r := p + [NextMovedCell(s, p, d)];
    assert forall i :: 0 <= i < n ==> r[i] == p[i];
    assert r[n] == NextMovedCell(s, p, d);
    forall i | 0 <= i < |r|
      ensures OrientationStep(s, r, d, i)
    {
      if i < n {
        assert OrientationStep(s, p, d, i);
        if i >= 1 {
          assert r[i - 1] == p[i - 1];
        }
      } else if i >= 1 {
        assert r[i - 1] == p[i - 1];
      }
    }
  }

  /** The first `n` cells of the body after one move along `d`, built from
      the head backwards as the pass in `move` does. */
  function MovedPrefix(s: seq<Cell>, d: Direction, n: nat): (r: seq<Cell>)
    requires n <= |s|
    ensures |r| == n && IsMovePrefix(s, r, d)
  {
    if n == 0 then []
    else
      var p := MovedPrefix(s, d, n - 1);
      MovePrefixExtends(s, p, d);
      p + [NextMovedCell(s, p, d)]
  }

  /** The body after one `move` along `d`. */
  function Moved(s: seq<Cell>, d: Direction): (r: seq<Cell>)
    ensures IsMoveOf(s, r, d)
  {
    MovedPrefix(s, d, |s|)
  }

  /** The rule of `move` leaves no choice: one old body and heading give one
      new body. */
  lemma {:induction false} MoveIsDeterministic(s: seq<Cell>, r1: seq<Cell>, r2: seq<Cell>, d: Direction)
    requires IsMoveOf(s, r1, d) && IsMoveOf(s, r2, d)
    ensures r1 == r2
  {
    var i := 0;
    while i < |s|
      invariant 0 <= i <= |s|
      invariant forall j :: 0 <= j < i ==> r1[j] == r2[j]
    {
      assert OrientationStep(s, r1, d, i) && OrientationStep(s, r2, d, i);
      i := i + 1;
    }
  }

  /** Cell `i` of the moved body, spelled out. */
  lemma MovedCell(s: seq<Cell>, d: Direction, i: int)
    requires 0 <= i < |s|
    ensures Moved(s, d)[i].kind == s[i].kind
    ensures Moved(s, d)[i].coords == if i == 0 then Add(s[0].coords, ToCoords(d)) else s[i - 1].coords
    ensures Moved(s, d)[i].direction
         == if i <= 1 then d
            else FromCoords(Sub(s[i - 1].coords, s[i - 2].coords)).UnwrapOr(Moved(s, d)[i - 1].direction)
  {
    assert OrientationStep(s, Moved(s, d), d, i);
  }

  /** The body after `grow`: the last cell becomes a Middle and a Tail is
      appended on top of it. */
  function Grown(s: seq<Cell>): (r: seq<Cell>)
    requires |s| > 0
    ensures |r| == |s| + 1
  {
    var last := s[|s| - 1];
    s[|s| - 1 := last.(kind := Middle)] + [Cell(Tail, last.coords, last.direction)]
  }

  /** Follow-the-leader: the head advances by the unit step of `d` and faces
      `d`, the cell behind it faces `d` too, each later cell takes the
      pre-move position of the one in front, and the length, the kinds and
      hence well-formedness are kept. */
  lemma MovedShape(s: seq<Cell>, d: Direction)
    requires WellFormed(s)
    ensures |Moved(s, d)| == |s|
    ensures Moved(s, d)[0] == Cell(Head, Add(s[0].coords, ToCoords(d)), d)
    ensures Moved(s, d)[1].direction == d
    ensures forall i :: 1 <= i < |s| ==> Moved(s, d)[i].coords == s[i - 1].coords
    ensures forall i :: 0 <= i < |s| ==> Moved(s, d)[i].kind == s[i].kind
    ensures WellFormed(Moved(s, d))
  {
    var r := Moved(s, d);
    assert OrientationStep(s, r, d, 0) && OrientationStep(s, r, d, 1);
  }

  /** Orientation bookkeeping of `move` for cell `j >= 2`: it gets the
      direction cell `j - 1` moved in when that move was a unit step, and
      otherwise copies cell `j - 1`'s new orientation. */
  lemma MovedOrientation(s: seq<Cell>, d: Direction, j: int)
    requires 2 <= j < |s|
    ensures forall e :: s[j - 2].coords == Add(s[j - 1].coords, ToCoords(e)) ==>
              Moved(s, d)[j].direction == e
    ensures (forall e :: s[j - 2].coords != Add(s[j - 1].coords, ToCoords(e))) ==>
              Moved(s, d)[j].direction == Moved(s, d)[j - 1].direction
  {
    var r := Moved(s, d);
    assert OrientationStep(s, r, d, j);
    var step := Sub(s[j - 1].coords, s[j - 2].coords);
    forall e | s[j - 2].coords == Add(s[j - 1].coords, ToCoords(e))
      ensures r[j].direction == e
    {
      FromCoordsOfStep(s[j - 1].coords, e);
    }
    if FromCoords(step).Some? {
      var e := FromCoords(step).value;
      assert s[j - 2].coords == Add(s[j - 1].coords, ToCoords(e));
    }
  }

  /** Moving shifts every gap between neighbours one place back; the gap
      behind the head is the step just taken. */
  lemma MovedGaps(s: seq<Cell>, d: Direction)
    requires |s| >= 2
    ensures Sub(Moved(s, d)[0].coords, Moved(s, d)[1].coords) == ToCoords(d)
    ensures forall j :: 2 <= j < |s| ==>
              Sub(Moved(s, d)[j - 1].coords, Moved(s, d)[j].coords) == Sub(s[j - 2].coords, s[j - 1].coords)
  {
  }

  /** A move keeps a contiguous body contiguous, and in a contiguous body the
      orientation `move` gives each cell after the head is exactly the step
      its predecessor just took. */
  lemma {:induction false} MovedContiguous(s: seq<Cell>, d: Direction)
    requires |s| >= 2 && Contiguous(s)
    ensures Contiguous(Moved(s, d))
    ensures forall j :: 1 <= j < |s| ==>
              ToCoords(Moved(s, d)[j].direction) == Sub(Moved(s, d)[j - 1].coords, s[j - 1].coords)
  {
    var r := Moved(s, d);
    MovedGaps(s, d);
    assert OrientationStep(s, r, d, 1);
    forall j | 2 <= j < |s|
      ensures IsUnitStep(Sub(r[j - 1].coords, r[j].coords))
      ensures ToCoords(r[j].direction) == Sub(s[j - 2].coords, s[j - 1].coords)
    {
      var step := Sub(s[j - 2].coords, s[j - 1].coords);
      assert IsUnitStep(step);
      UnitStepHasDirection(step);
      assert Neg(step) == Sub(s[j - 1].coords, s[j - 2].coords);
      assert OrientationStep(s, r, d, j);
    }
    ToCoordsIsUnit(d);
  }

  /** `grow` puts the new cell on top of the old last one, so the body is not
      contiguous right after growing; the following move makes a contiguous
      body contiguous again. */
  lemma {:induction false} GrownThenMovedContiguous(s: seq<Cell>, d: Direction)
    requires |s| >= 2 && Contiguous(s)
    ensures !Contiguous(Grown(s))
    ensures Contiguous(Moved(Grown(s), d))
  {
    var g := Grown(s);
    var n := |s|;
    assert Sub(g[n - 1].coords, g[n].coords) == Coords(0, 0);
    assert !IsUnitStep(Sub(g[n - 1].coords, g[n].coords));
    MovedGaps(g, d);
    ToCoordsIsUnit(d);
    var m := Moved(g, d);
    forall j | 2 <= j < |m|
      ensures IsUnitStep(Sub(m[j - 1].coords, m[j].coords))
    {
      assert Sub(m[j - 1].coords, m[j].coords) == Sub(g[j - 2].coords, g[j - 1].coords);
      assert g[j - 2].coords == s[j - 2].coords && g[j - 1].coords == s[j - 1].coords;
    }
    assert forall i :: 0 <= i < |m| - 1 ==> IsUnitStep(Sub(m[i].coords, m[i + 1].coords)) by {
      forall i | 0 <= i < |m| - 1 ensures IsUnitStep(Sub(m[i].coords, m[i + 1].coords)) {
        if i > 0 {
          var j := i + 1;
          assert IsUnitStep(Sub(m[j - 1].coords, m[j].coords));
        }
      }
    }
  }

  /** What `grow` does, cell by cell: one more cell, the former last cell
      now a Middle, the new last cell a Tail on the old last cell's position
      and orientation, everything before untouched; well-formedness is kept. */
  lemma GrownShape(s: seq<Cell>)
    requires |s| > 0
    ensures |Grown(s)| == |s| + 1
    ensures forall i :: 0 <= i < |s| - 1 ==> Grown(s)[i] == s[i]
    ensures Grown(s)[|s| - 1] == s[|s| - 1].(kind := Middle)
    ensures Grown(s)[|s|] == Cell(Tail, s[|s| - 1].coords, s[|s| - 1].direction)
    ensures WellFormed(s) ==> WellFormed(Grown(s))
  {
  }

  /** Translated, the grown body is the old one with the last cell repeated. */
  lemma GrownTranslated(s: seq<Cell>, max: int)
    requires |s| > 0 && max != 0
    ensures TranslateAll(Grown(s), max) == TranslateAll(s, max) + [Translate(s[|s| - 1].coords, max)]
  {
    GrownShape(s);
    var g, n := Grown(s), |s|;
    assert forall i :: 0 <= i < n ==> g[i].coords == s[i].coords;
  }

  /** Growing occupies no new cell: the translated positions are the same set. */
  lemma GrownOccupiesNoNewCell(s: seq<Cell>, max: int)
    requires |s| > 0 && max != 0
    ensures forall c :: c in TranslateAll(Grown(s), max) <==> c in TranslateAll(s, max)
  {
    GrownTranslated(s, max);
    var ts := TranslateAll(s, max);
    assert ts[|s| - 1] in ts;
  }

  /** Right after a move the head never shares a cell with the cell behind
      it, on any grid at least two cells wide. */
  lemma NeckNeverCollides(s: seq<Cell>, d: Direction, max: int)
    requires |s| >= 2 && max >= 2
    ensures Translate(Moved(s, d)[0].coords, max) != Translate(Moved(s, d)[1].coords, max)
  {
    var r := Moved(s, d);
    assert r[0].coords == Add(s[0].coords, ToCoords(d)) && r[1].coords == s[0].coords;
    StepChangesCell(s[0].coords, d, max);
  }

  /** From the start, one move right puts the head on (1,0) and the tail on
      (0,0); then a move up puts the head on (1,-1), which is cell (1,9) of
      the 10 by 10 grid, and the tail on (1,0). */
  lemma TwoMovesFromStart()
    ensures Moved(InitialCells(), Right)
         == [Cell(Head, Coords(1, 0), Right), Cell(Tail, Coords(0, 0), Right)]
    ensures Moved(Moved(InitialCells(), Right), Up)
         == [Cell(Head, Coords(1, -1), Up), Cell(Tail, Coords(1, 0), Up)]
    ensures Translate(Coords(1, -1), 10) == Coords(1, 9)
  {
    var s0 := InitialCells();
    var s1 := [Cell(Head, Coords(1, 0), Right), Cell(Tail, Coords(0, 0), Right)];
    var s2 := [Cell(Head, Coords(1, -1), Up), Cell(Tail, Coords(1, 0), Up)];
    MovedCell(s0, Right, 0);
    MovedCell(s0, Right, 1);
    assert Moved(s0, Right) == s1;
    MovedCell(s1, Up, 0);
    MovedCell(s1, Up, 1);
    assert Moved(s1, Up) == s2;
  }

  class Snake {
    var cells: seq<Cell>
    var direction: Direction
    var nextDirection: Direction

    /** Well-formed body, and the pending heading never reverses the
        current one. */
    ghost predicate Valid()
      reads this
    {
      WellFormed(cells) && nextDirection != Opposite(direction)
    }

    /** `Snake::new`. */
    constructor ()
      ensures Valid()
      ensures cells == InitialCells()
      ensures direction == Right && nextDirection == Right
    {
      cells := InitialCells();
      direction := Right;
      nextDirection := Right;
    }

    /** `get_head`: the first cell, which is the Head of a valid snake. */
    function GetHead(): (h: Cell)
      reads this
      requires |cells| > 0
      ensures h == cells[0]
      ensures Valid() ==> h.kind == Head
    {
      cells[0]
    }

    /** `get_translated_cell_coords`. */
    function GetTranslatedCellCoords(max: int): (r: seq<Coords>)
      reads this
      requires max != 0
      ensures |r| == |cells|
      ensures forall i :: 0 <= i < |cells| ==> r[i] == Translate(cells[i].coords, max)
      ensures max > 0 ==> forall i :: 0 <= i < |r| ==> 0 <= r[i].x < max && 0 <= r[i].y < max
    {
      TranslateAll(cells, max)
    }

    /** `grow`. */
    method Grow()
      requires |cells| > 0
      modifies this
      ensures cells == Grown(old(cells))
      ensures direction == old(direction) && nextDirection == old(nextDirection)
      ensures old(Valid()) ==> Valid()
    {
      GrownShape(cells);
      var n := |cells|;
      cells := cells[n - 1 := cells[n - 1].(kind := Middle)];
      var last := cells[n - 1];
      cells := cells + [Cell(Tail, last.coords, last.direction)];
    }

    /** `move`: one pass head to tail that carries the previous cell's old
        position and writes each following cell's orientation before that
        cell is visited. */
    method Move()
      requires WellFormed(cells)
      modifies this
      ensures Valid()
      ensures direction == old(nextDirection) && nextDirection == old(nextDirection)
      ensures old(Valid()) ==> direction != Opposite(old(direction))
      ensures cells == Moved(old(cells), direction)
    {
      ghost var s := cells;
      var prev := Coords(-1, -1);
      direction := nextDirection;
      ghost var m := Moved(s, direction);
      assert WellFormed(s);
      var i := 0;
      while i < |cells|
        invariant 0 <= i <= |cells| == |s|
        invariant direction == nextDirection == old(nextDirection)
        invariant i > 0 ==> prev == s[i - 1].coords
        invariant forall j {:trigger cells[j]} :: 0 <= j < i ==> cells[j] == m[j]
        invariant i < |s| ==> cells[i] == s[i].(direction := if i == 0 then s[0].direction else m[i].direction)
        invariant forall j {:trigger cells[j]} :: i < j < |s| ==> cells[j] == s[j]
      {
        MovedCell(s, direction, i);
        if i + 1 < |s| {
          MovedCell(s, direction, i + 1);
        }
        var c := cells[i];
        assert c.kind == Head <==> i == 0;
        if c.kind == Head {
          if i + 1 < |cells| {
            cells := cells[i + 1 := cells[i + 1].(direction := direction)];
          }
          c := c.(direction := direction);
          prev := c.coords;
          c := c.MoveTo(Add(c.coords, ToCoords(direction)));
        } else {
          if i + 1 < |cells| {
            var d := FromCoords(Sub(c.coords, prev));
            cells := cells[i + 1 := cells[i + 1].(direction := d.UnwrapOr(c.direction))];
          }
          var tmp := c.coords;
          c := c.MoveTo(prev);
          prev := tmp;
        }
        assert c == m[i];
        assert i + 1 < |s| ==> cells[i + 1] == s[i + 1].(direction := m[i + 1].direction);
        cells := cells[i := c];
        i := i + 1;
      }
      assert cells == m;
      MovedShape(s, direction);
      OppositeDiffers(direction);
    }

    /** `change_direction`: the request becomes the pending heading unless it
        is the current heading or its reverse; nothing else changes. */
    method ChangeDirection(d: Direction)
      modifies this
      ensures nextDirection == if IsSameOrOpposite(direction, d) then old(nextDirection) else d
      ensures cells == old(cells) && direction == old(direction)
      ensures old(Valid()) ==> Valid()
    {
      SameOrOppositeCases(direction, d);
      if !IsSameOrOpposite(direction, d) {
        nextDirection := d;
      }
    }
  }
}
