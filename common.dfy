/** Small value types shared by the puzzle engine and the maze generator. */
module Common {

  /** `None` stands for a null reference or an absent result. */
  datatype Option<T> = None | Some(value: T)

  /** A grid coordinate: `i` is the first array index, `j` the second. */
  datatype Pos = Pos(i: int, j: int)
}
