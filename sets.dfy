/** Cardinality facts about finite sets used by the board proofs. */
module SetFacts {

  /** A subset is never larger than its superset. */
  lemma {:induction false} SubsetCard<T>(a: set<T>, b: set<T>)
    requires a <= b
    ensures |a| <= |b|
    decreases |a|
  {
    if a != {} {
      var x :| x in a;
      SubsetCard(a - {x}, b - {x});
    }
  }

  /** The cells of a rectangle `rows × cols` with its corner at (0, 0). */
  function Rect(rows: nat, cols: nat): set<(int, int)>
  {
    set i, j | 0 <= i < rows && 0 <= j < cols :: (i, j)
  }

  /** The first `cols` cells of line `row`. */
  function Line(row: int, cols: nat): set<(int, int)>
  {
    set j | 0 <= j < cols :: (row, j)
  }

  lemma {:induction false} LineCard(row: int, cols: nat)
    ensures |Line(row, cols)| == cols
  {
    if cols == 0 {
      assert Line(row, cols) == {};
    } else {
      LineCard(row, cols - 1);
      assert Line(row, cols) == Line(row, cols - 1) + {(row, cols - 1)};
    }
  }

  /** A `rows × cols` board has exactly `rows * cols` cells. */
  lemma {:induction false} RectCard(rows: nat, cols: nat)
    ensures |Rect(rows, cols)| == rows * cols
  {
    if rows == 0 {
      assert Rect(rows, cols) == {};
    } else {
      RectCard(rows - 1, cols);
      LineCard(rows - 1, cols);
      assert Rect(rows, cols) == Rect(rows - 1, cols) + Line(rows - 1, cols);
      assert Rect(rows - 1, cols) * Line(rows - 1, cols) == {};
      assert (rows - 1) * cols + cols == rows * cols;
    }
  }
}
