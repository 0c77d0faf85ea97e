/** A reference to one region of the 9×9 grid: a row, a column, a box, or the whole grid. */
module DigitSets {
  datatype DigitSet = Row(row: nat) | Col(col: nat) | Box(box: nat) | All
}
