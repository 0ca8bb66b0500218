/**
 Concrete renderings: what a closed matrix appends to its parent for a few
 small inputs.
 */
module Scenarios {
  import opened Text
  import opened MatrixRendering

  /** Two cells joined into one row text. */
  lemma JoinPair(a: string, b: string)
    ensures Join([a, b], CellSeparator) == a + " & " + b
  {
  }

  /** Two rows of two cells and no bar. */
  lemma TwoByTwoBlock()
    ensures Block([["1", "2"], ["3", "4"]], -1)
         == BlockHead + "cc" + SpecEnd + "1 & 2" + RowSeparator + "3 & 4" + BlockTail
  {
    assert Repeat('c', 2) == "cc";
    JoinPair("1", "2");
    JoinPair("3", "4");
  }

  /** A bar after the first of two columns. */
  lemma BarAfterFirstColumn()
    ensures Block([["1", "2"]], 1) == BlockHead + "c|c" + SpecEnd + "1 & 2" + BlockTail
  {
  }

  /** A bar declared beyond the first row's last column is not drawn. */
  lemma BarOutOfRange()
    ensures Block([["1"], ["2"]], 2) == BlockHead + "c" + SpecEnd + "1" + RowSeparator + "2" + BlockTail
  {
  }
}
