/**
 The board: a fixed square of cells addressed by integer coordinates, the
 bounds guard `Snake.Move` applies, and the counting facts about the board
 that decide when a free cell for the apple exists.
 */
module Grid {

  /** Number of squares along each side of the board. */
  const Size: int := 16

  /** A cell. The source keeps both coordinates as plain `int`s. */
  datatype Place = Place(x: int, y: int)

  /** The zero value of `Place`, which is also what an unknown key maps to. */
  const Zero: Place := Place(0, 0)

  predicate InBounds(p: Place) {
    0 <= p.x < Size && 0 <= p.y < Size
  }

  /** The guard of `Move`: a coordinate that has reached exactly -1 or `Size`. */
  predicate Outbound(p: Place) {
    p.x == -1 || p.x == Size || p.y == -1 || p.y == Size
  }

  function Add(a: Place, d: Place): Place {
    Place(a.x + d.x, a.y + d.y)
  }

  /** One of the four arrow-key deltas. */
  predicate IsUnit(d: Place) {
    || (d.x == 0 && (d.y == 1 || d.y == -1))
    || (d.y == 0 && (d.x == 1 || d.x == -1))
  }

  /** A delta a snake can hold as its heading: a unit step, or the zero value it starts with. */
  predicate IsHeading(d: Place) {
    d == Zero || IsUnit(d)
  }

  /**
   From a cell on the board a unit step lands on the board exactly when it
   does not hit -1 or `Size`: for the deltas the game uses, the equality
   test of `Move` is a complete bounds check.
   */
  lemma UnitStepBounds(a: Place, d: Place)
    requires InBounds(a) && IsUnit(d)
    ensures InBounds(Add(a, d)) <==> !Outbound(Add(a, d))
  {
  }

  /** No cell occurs twice. */
  predicate Distinct(s: seq<Place>) {
    forall i, j :: 0 <= i < j < |s| ==> s[i] != s[j]
  }

  /** Every cell of the board. */
  function AllCells(): (cells: set<Place>)
    ensures forall p :: p in cells <==> InBounds(p)
  {
    set x, y | 0 <= x < Size && 0 <= y < Size :: Place(x, y)
  }

  /** The cells of a sequence, as a set; never more of them than the sequence is long. */
  function Cells(s: seq<Place>): (c: set<Place>)
    ensures forall p :: p in c <==> p in s
    ensures |c| <= |s|
    decreases |s|
  {
    if |s| == 0 then {}
    else
      assert s == [s[0]] + s[1..];
      {s[0]} + Cells(s[1..])
  }

  lemma {:induction false} DistinctCells(s: seq<Place>)
    requires Distinct(s)
    ensures |Cells(s)| == |s|
    decreases |s|
  {
    if |s| > 0 {
      assert Distinct(s[1..]) by {
        forall i, j | 0 <= i < j < |s[1..]| ensures s[1..][i] != s[1..][j] {
          assert s[1..][i] == s[i + 1] && s[1..][j] == s[j + 1];
        }
      }
      DistinctCells(s[1..]);
      assert s[0] !in s[1..] by {
        forall k | 0 <= k < |s[1..]| ensures s[1..][k] != s[0] {
          assert s[1..][k] == s[k + 1];
        }
      }
    }
  }

  lemma SubsetCard(a: set<Place>, b: set<Place>)
    requires a <= b
    ensures |a| <= |b|
  {
    assert b == a + (b - a);
  }

  /** The board in row-major order: cell `i` is column `i % Size` of row `i / Size`. */
  function Board(): (b: seq<Place>)
    ensures |b| == Size * Size
  {
    seq(Size * Size, i requires 0 <= i < Size * Size => Place(i % Size, i / Size))
  }

  /** Row-major coordinates are unique: quotient and remainder by `Size` pin down the index. */
  lemma DivModUnique(i: int, q: int, r: int)
    requires i == Size * q + r && 0 <= r < Size
    ensures i / Size == q && i % Size == r
  {
  }

  /** No cell occurs twice in the row-major board. */
  lemma BoardDistinct()
    ensures Distinct(Board())
  {
  }

  /** The row-major board lists only cells on the board */
  lemma BoardInBounds(p: Place)
    requires p in Board()
    ensures InBounds(p)
  {
  }

  /** ... and every one of them. */
  lemma BoardCovers(p: Place)
    requires InBounds(p)
    ensures p in Board()
  {
    var i := p.y * Size + p.x;
    DivModUnique(i, p.y, p.x);
    assert Board()[i] == p;
  }

  /** The board has exactly `Size * Size` cells. */
  lemma AllCellsCount()
    ensures |AllCells()| == Size * Size
  {
    var b := Board();
    BoardDistinct();
    DistinctCells(b);
    var c := Cells(b);
    var all := AllCells();
    forall p | p in all ensures p in c {
      BoardCovers(p);
    }
    forall p | p in c ensures p in all {
      BoardInBounds(p);
    }
    SubsetCard(c, all);
    SubsetCard(all, c);
  }

  /**
   Pigeonhole: a sequence shorter than the number of cells leaves some cell
   of the board uncovered.
   */
  lemma FreeCellExists(body: seq<Place>)
    requires |body| < Size * Size
    ensures exists p :: InBounds(p) && p !in body
  {
    AllCellsCount();
    if forall p :: InBounds(p) ==> p in body {
      SubsetCard(AllCells(), Cells(body));
      assert false;
    }
  }

  /**
   Conversely, distinct cells on the board number at most `Size * Size`, and
   when there are that many they cover every cell.
   */
  lemma FullBoard(body: seq<Place>)
    requires Distinct(body)
    requires forall i :: 0 <= i < |body| ==> InBounds(body[i])
    ensures |body| <= Size * Size
    ensures |body| == Size * Size ==> forall p :: InBounds(p) ==> p in body
  {
    AllCellsCount();
    DistinctCells(body);
    SubsetCard(Cells(body), AllCells());
    if |body| == Size * Size {
      forall p | InBounds(p) ensures p in body {
        if p !in body {
          SubsetCard(Cells(body), AllCells() - {p});
          assert false;
        }
      }
    }
  }
}
