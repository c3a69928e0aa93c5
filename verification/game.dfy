/**
 The game state the program keeps in globals — the snake, the apple and the
 score — and the single transition `Snake.Move` that changes it.
 */
module Games {

  import opened Wrappers
  import opened Grid
  import opened Snakes
  import opened Apples

  datatype Game = Game(snake: Snake, apple: Place, score: int)

  /** The state after a call to `Move`, and the error it returned. */
  datatype MoveResult = MoveResult(game: Game, err: Option<MoveError>)

  /** The cell the head steps onto under delta `p`. */
  function NewHead(g: Game, p: Place): Place
    requires |g.snake.places| >= 1
  {
    Add(g.snake.places[0], p)
  }

  /** The move passes both guards and lands on the apple. */
  predicate Eats(g: Game, p: Place)
    requires |g.snake.places| >= 1
  {
    var h := NewHead(g, p);
    !Outbound(h) && h !in g.snake.places && h == g.apple
  }

  /** When the move eats, the generator yields a free cell for the new apple. */
  predicate DrawsSuffice(g: Game, p: Place, draws: seq<Place>)
    requires |g.snake.places| >= 1
  {
    Eats(g, p) ==> ValidDraws(draws) && HasFreeDraw(Shift(g.snake.places, NewHead(g, p)), draws)
  }

  /**
   `Snake.Move`. It rejects a head reaching -1 or `Size` and a head on any
   segment, the tail included, and then changes nothing. Otherwise the body
   shifts and the heading becomes `p`. On the apple, a new apple is drawn
   against the shifted body, the body gains a copy of its own new last
   segment, and the score goes up by one.
   */
  function Move(g: Game, p: Place, draws: seq<Place>): (r: MoveResult)
    requires |g.snake.places| >= 1
    requires DrawsSuffice(g, p, draws)
    ensures r.err == Some(OutboundError) <==> Outbound(NewHead(g, p))
    ensures r.err == Some(HasSquareError) <==> !Outbound(NewHead(g, p)) && NewHead(g, p) in g.snake.places
    ensures r.err.Some? ==> r.game == g
    ensures r.err.None? ==>
              && |r.game.snake.places| == |g.snake.places| + (if Eats(g, p) then 1 else 0)
              && r.game.snake.places[0] == NewHead(g, p)
              && (forall i :: 1 <= i < |g.snake.places| ==> r.game.snake.places[i] == g.snake.places[i - 1])
              && r.game.snake.move == p
    ensures r.err.None? && !Eats(g, p) ==> r.game.apple == g.apple && r.game.score == g.score
    ensures r.err.None? && Eats(g, p) ==>
              && r.game.snake.places[|g.snake.places|] == r.game.snake.places[|g.snake.places| - 1]
              && Free(r.game.snake.places, r.game.apple)
              && r.game.score == g.score + 1
  {
    var places := g.snake.places;
    var h := Add(places[0], p);
    if Outbound(h) then MoveResult(g, Some(OutboundError))
    else match CheckIfHasSquare(places, h.x, h.y)
      case Some(e) => MoveResult(g, Some(e))
      case None =>
        var l := |places|;
        var newPlaces := Shift(places, h);
        if h.x == g.apple.x && h.y == g.apple.y then
          var apple := CreateApple(newPlaces, draws);
          var grown := newPlaces + [newPlaces[l - 1]];
          assert forall c :: c in grown ==> c in newPlaces;
          MoveResult(Game(Snake(grown, p), apple, g.score + 1), None)
        else
          MoveResult(Game(Snake(newPlaces, p), g.apple, g.score), None)
  }

  /**
   What holds of every state the running program reaches: at least three
   segments, one more than three per point scored, all on the board and
   repeated only at the tail; the apple on a free cell; a unit or zero heading.
   */
  predicate Inv(g: Game) {
    var ps := g.snake.places;
    && |ps| >= 3
    && |ps| == g.score + 3
    && (forall i :: 0 <= i < |ps| ==> InBounds(ps[i]))
    && NearlyDistinct(ps)
    && Free(ps, g.apple)
    && IsHeading(g.snake.move)
  }

  /**
   `Move` with a unit or zero delta keeps the invariant: the only new cell is
   the head, which passed the bounds guard, and the length grows exactly
   when the score does.
   */
  lemma MovePreservesInv(g: Game, p: Place, draws: seq<Place>)
    requires Inv(g) && IsHeading(p) && DrawsSuffice(g, p, draws)
    ensures Inv(Move(g, p, draws).game)
  {
  }

  /**
   No cell is exempt from the collision test: a head stepping onto the tail
   is rejected although the tail would have moved out of the way.
   */
  lemma TailIsNotExempt(g: Game, p: Place, draws: seq<Place>)
    requires |g.snake.places| >= 1 && DrawsSuffice(g, p, draws)
    requires NewHead(g, p) == g.snake.places[|g.snake.places| - 1] && !Outbound(NewHead(g, p))
    ensures Move(g, p, draws) == MoveResult(g, Some(HasSquareError))
  {
  }

  /**
   The move that eats leaves room for the new apple exactly when the body is
   shorter than the board: the shifted body is free of repeats, so with
   `Size * Size` segments it covers every cell and `createApple` never
   returns.
   */
  lemma AppleRoom(g: Game, p: Place)
    requires Inv(g) && Eats(g, p)
    ensures (exists c :: Free(Shift(g.snake.places, NewHead(g, p)), c)) <==> |g.snake.places| < Size * Size
  {
    var ps := g.snake.places;
    var h := NewHead(g, p);
    var s := Shift(ps, h);
    ShiftDistinct(ps, h);
    forall i | 0 <= i < |s| ensures InBounds(s[i]) {
      if i > 0 {
        assert s[i] == ps[i - 1];
      }
    }
    FullBoard(s);
    if |ps| < Size * Size {
      FreeCellExists(s);
      var c :| InBounds(c) && c !in s;
      assert Free(s, c);
    }
  }
}
