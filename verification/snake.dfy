/**
 The snake itself: its segments, head first, and the delta of the last move
 it accepted, together with the occupancy test and the body shift that
 `Snake.Move` performs.
 */
module Snakes {

  import opened Wrappers
  import opened Grid

  /** `places` runs from head to tail; `move` is the heading the timer replays. */
  datatype Snake = Snake(places: seq<Place>, move: Place)

  /** The two errors `Move` returns: "outbound" and "has sqaure". */
  datatype MoveError = OutboundError | HasSquareError

  /**
   `CheckIfHasSquare`: scans the body from the head and fails at the first
   segment equal to `(x, y)`; `None` is the `nil` error.
   */
  function CheckIfHasSquare(places: seq<Place>, x: int, y: int): (err: Option<MoveError>)
    ensures err.Some? <==> Place(x, y) in places
    ensures err.Some? ==> err.value == HasSquareError
    decreases |places|
  {
    if |places| == 0 then None
    else if x == places[0].x && y == places[0].y then Some(HasSquareError)
    else
      assert places == [places[0]] + places[1..];
      CheckIfHasSquare(places[1..], x, y)
  }

  /**
   The body once the head has advanced to `head`: every segment takes the
   cell of the one in front of it and the old tail cell is given up.
   */
  function Shift(places: seq<Place>, head: Place): (r: seq<Place>)
    requires |places| >= 1
    ensures |r| == |places| && r[0] == head
    ensures forall i :: 1 <= i < |r| ==> r[i] == places[i - 1]
  {
    [head] + places[..|places| - 1]
  }

  /**
   No two segments share a cell, except possibly the last two: the shape
   that growth leaves behind for one move.
   */
  predicate NearlyDistinct(places: seq<Place>) {
    forall i, j :: 0 <= i < j < |places| && places[i] == places[j] ==> i == |places| - 2 && j == |places| - 1
  }

  /**
   Shifting a nearly distinct body onto a cell it does not occupy yields a
   body with no repeated cell at all: the possible duplicate was the tail.
   */
  lemma ShiftDistinct(places: seq<Place>, head: Place)
    requires |places| >= 1 && NearlyDistinct(places) && head !in places
    ensures Distinct(Shift(places, head))
  {
  }
}
