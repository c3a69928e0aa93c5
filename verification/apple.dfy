/**
 Apple placement. `createApple` draws random cells until one is off the
 snake. Randomness enters as `draws`: the successive pairs
 `(rand.Intn(Size), rand.Intn(Size))` the generator yields, in order.
 */
module Apples {

  import opened Grid
  import opened Snakes

  /** A cell the apple may take: on the board and on no segment of `body`. */
  predicate Free(body: seq<Place>, c: Place) {
    InBounds(c) && c !in body
  }

  /** What `rand.Intn(Size)` can return, on both coordinates of every draw. */
  predicate ValidDraws(draws: seq<Place>) {
    forall i :: 0 <= i < |draws| ==> InBounds(draws[i])
  }

  /** The generator yields a cell off the body before the draws run out. */
  predicate HasFreeDraw(body: seq<Place>, draws: seq<Place>) {
    exists i :: 0 <= i < |draws| && draws[i] !in body
  }

  /**
   `createApple`: the first draw that `CheckIfHasSquare` clears. Every draw
   before it lies on the body, and the apple it returns is free.
   */
  function CreateApple(body: seq<Place>, draws: seq<Place>): (apple: Place)
    requires ValidDraws(draws) && HasFreeDraw(body, draws)
    ensures Free(body, apple)
    ensures exists k :: 0 <= k < |draws| && draws[k] == apple && forall j :: 0 <= j < k ==> draws[j] in body
    decreases |draws|
  {
    if CheckIfHasSquare(body, draws[0].x, draws[0].y).None? then draws[0]
    else
      assert HasFreeDraw(body, draws[1..]) by {
        var i :| 0 <= i < |draws| && draws[i] !in body;
        assert draws[1..][i - 1] == draws[i];
      }
      var apple := CreateApple(body, draws[1..]);
      assert exists k :: 0 <= k < |draws| && draws[k] == apple && forall j :: 0 <= j < k ==> draws[j] in body by {
        var k :| 0 <= k < |draws[1..]| && draws[1..][k] == apple && forall j :: 0 <= j < k ==> draws[1..][j] in body;
        assert draws[k + 1] == apple;
        forall j | 0 <= j < k + 1 ensures draws[j] in body {
          if j > 0 {
            assert draws[j] == draws[1..][j - 1];
          }
        }
      }
      apple
  }

  /**
   On a board the body covers completely no draw is ever free, so the loop
   of `createApple` never ends, whatever the generator yields.
   */
  lemma CoveredBoardStarves(body: seq<Place>, draws: seq<Place>)
    requires forall p :: InBounds(p) ==> p in body
    requires ValidDraws(draws)
    ensures !HasFreeDraw(body, draws)
  {
  }

  /**
   When some cell is free, a generator that eventually yields it lets
   `createApple` finish; one such run draws that cell first.
   */
  lemma FreeCellFinishes(body: seq<Place>, c: Place)
    requires Free(body, c)
    ensures ValidDraws([c]) && HasFreeDraw(body, [c]) && CreateApple(body, [c]) == c
  {
    assert [c][0] == c;
  }
}
