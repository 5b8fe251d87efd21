/** One field of a raw batch as the CSV reader hands it over. */
module Cells {

  /** `Missing` is pandas' NaN (an empty CSV field reads as one); `Text` is a
      string value; `Number` is a value the reader typed as a number, which the
      decoder treats as "not a string". */
  datatype Cell = Missing | Text(s: string) | Number(x: real)
}
