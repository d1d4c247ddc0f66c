/** The game state (src/core.rs): the snake, the food and the score, and the
    tick that moves the snake, feeds it and places new food. The canvas
    context and all drawing are not modelled. The random draws of
    `Food::new` are a parameter: a finite list of sampled coordinates, each
    in the range the sampler yields. */
module GameCore {
  import opened Utils
  import opened Body

  /** The side of the square board; every comparison translates with it. */
  const GridSize: int := 10

  /** A cell of the board, the range `Food::new` samples from. */
  predicate InGrid(c: Coords) {
    0 <= c.x < GridSize && 0 <= c.y < GridSize
  }

  /** Two coordinates a whole number of boards apart on both axes. */
  predicate SameCellModGrid(a: Coords, b: Coords) {
    (a.x - b.x) % GridSize == 0 && (a.y - b.y) % GridSize == 0
  }

  /** The head shares a board cell with some other cell of the body. */
  ghost predicate HeadHitsBody(s: seq<Cell>) {
    exists i :: 1 <= i < |s| && Translate(s[i].coords, GridSize) == Translate(s[0].coords, GridSize)
  }

  /** What one tick did: moved only, moved and ate, or moved onto food and
      ran out of draws before finding a free cell for the next food. */
  datatype Tick = Stepped | Ate | OutOfDraws

  /** Snake::new starts with the head on top of the tail, so the body
      collides before the first move; the game loop always moves first. */
  lemma StartingBodyCollides()
    ensures HeadHitsBody(InitialCells())
  {
    var s := InitialCells();
    assert Translate(s[1].coords, GridSize) == Translate(s[0].coords, GridSize);
  }

  /** A two-cell snake never runs into itself, whatever it did before. */
  lemma ShortSnakeNeverCollides(s: seq<Cell>, d: Direction)
    requires |s| == 2
    ensures !HeadHitsBody(Moved(s, d))
  {
    var r := Moved(s, d);
    NeckNeverCollides(s, d, GridSize);
    forall i | 1 <= i < |r|
      ensures Translate(r[i].coords, GridSize) != Translate(r[0].coords, GridSize)
    {
      assert i == 1;
    }
  }

  /** Hence the first tick of a new game is safe: the game loop moves
      before it checks for a collision, and the check fails whichever way
      the first move goes (a key may be pressed before the first frame) and
      whether or not that move eats and grows the snake. */
  lemma FirstTickIsSafe(d: Direction)
    ensures !HeadHitsBody(Moved(InitialCells(), d))
    ensures !HeadHitsBody(Grown(Moved(InitialCells(), d)))
  {
    var m := Moved(InitialCells(), d);
    ShortSnakeNeverCollides(InitialCells(), d);
    NeckNeverCollides(InitialCells(), d, GridSize);
    var g := Grown(m);
    assert |g| == 3 && g[0] == m[0] && g[1].coords == m[1].coords && g[2].coords == m[1].coords;
    assert forall i :: 1 <= i < |g| ==> g[i].coords == m[1].coords;
  }

  class Core {
    const snake: Snake
    var food: Food
    var score: nat

    /** The snake is valid, the food lies on the board, and the score counts
        the cells grown beyond the starting two. */
    ghost predicate Valid()
      reads this, snake
    {
      && snake.Valid()
      && InGrid(food.coords)
      && |snake.cells| == score + 2
    }

    /** `Core::new`, with `first` the sampler's first draw. */
    constructor (first: Coords)
      requires InGrid(first)
      ensures Valid()
      ensures fresh(snake)
      ensures snake.cells == InitialCells() && snake.direction == Right && snake.nextDirection == Right
      ensures food == Food(first) && score == 0
    {
      snake := new Snake();
      food := Food(first);
      score := 0;
    }

    /** `check_eating_condition`: the translated head is the food's cell.
        Food on the board is eaten exactly when the head lies a whole number
        of boards away from it on both axes. */
    function CheckEatingCondition(): (r: bool)
      reads this, snake
      requires |snake.cells| > 0
      ensures InGrid(food.coords) ==>
                (r <==> SameCellModGrid(snake.cells[0].coords, food.coords))
    {
      var head := snake.GetHead().coords;
      TranslateSameCell(head, food.coords, GridSize);
      TranslateFixesGridCells(food.coords, GridSize);
      Translate(head, GridSize) == food.coords
    }

    /** `check_collision`: the translated head occurs among the translated
        cells after the first; an empty body never collides. */
    function CheckCollision(): (r: bool)
      reads this, snake
      ensures r <==> HeadHitsBody(snake.cells)
      ensures |snake.cells| < 2 ==> !r
    {
      var t := snake.GetTranslatedCellCoords(GridSize);
      if |t| == 0 then false
      else
        var rest := t[1..];
        assert forall i :: 1 <= i < |t| ==> rest[i - 1] == t[i];
        Translate(snake.GetHead().coords, GridSize) in rest
    }

    /** `inc_score`. */
    method IncScore()
      modifies this
      ensures score == old(score) + 1
      ensures food == old(food)
    {
      score := score + 1;
    }

    /** `generate_food`: draw until a cell not covered by the body comes up
        and put the food there. The draws are `samples`; when every one of
        them lands on the body the food is left where it was and `placed`
        is false (the source would keep drawing). */
    method GenerateFood(samples: seq<Coords>) returns (placed: bool)
      requires forall k :: 0 <= k < |samples| ==> InGrid(samples[k])
      modifies this
      ensures placed <==> exists k :: 0 <= k < |samples| && samples[k] !in TranslateAll(snake.cells, GridSize)
      ensures placed ==> InGrid(food.coords) && food.coords !in TranslateAll(snake.cells, GridSize)
      ensures placed ==> exists k :: && 0 <= k < |samples|
                                     && food.coords == samples[k]
                                     && forall j :: 0 <= j < k ==> samples[j] in TranslateAll(snake.cells, GridSize)
      ensures !placed ==> food == old(food)
      ensures score == old(score)
    {
      var k := 0;
      while k < |samples| && samples[k] in snake.GetTranslatedCellCoords(GridSize)
        invariant 0 <= k <= |samples|
        invariant forall j :: 0 <= j < k ==> samples[j] in TranslateAll(snake.cells, GridSize)
      {
        k := k + 1;
      }
      placed := k < |samples|;
      if placed {
        food := Food(samples[k]);
      }
    }

    /** `move_snake`: move, and if the head is now on the food, place new
        food, grow and score. */
    method MoveSnake(samples: seq<Coords>) returns (tick: Tick)
      requires WellFormed(snake.cells)
      requires forall k :: 0 <= k < |samples| ==> InGrid(samples[k])
      modifies this, snake
      ensures old(Valid()) ==> Valid()
      ensures snake.Valid()
      ensures snake.direction == old(snake.nextDirection) == snake.nextDirection
      ensures tick == Stepped <==> Translate(Moved(old(snake.cells), snake.direction)[0].coords, GridSize) != old(food).coords
      ensures tick == Ate ==> && snake.cells == Grown(Moved(old(snake.cells), snake.direction))
                              && score == old(score) + 1
                              && food.coords !in TranslateAll(snake.cells, GridSize)
      ensures tick != Ate ==> snake.cells == Moved(old(snake.cells), snake.direction) && score == old(score)
      ensures tick != Ate ==> food == old(food)
      ensures tick == OutOfDraws ==> forall k :: 0 <= k < |samples| ==> samples[k] in TranslateAll(snake.cells, GridSize)
      ensures |snake.cells| == old(|snake.cells|) + (if tick == Ate then 1 else 0)
    {
      snake.Move();
      if CheckEatingCondition() {
        var placed := GenerateFood(samples);
        if !placed {
          return OutOfDraws;
        }
        GrownOccupiesNoNewCell(snake.cells, GridSize);
        snake.Grow();
        IncScore();
        tick := Ate;
      } else {
        tick := Stepped;
      }
    }
  }
}
