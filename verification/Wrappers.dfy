/** Results that may be absent, and stacks. */
module Wrappers {
  datatype Option<+T> = None | Some(value: T)

  /** A stack of cells, top first. */
  datatype Stack<T> = Bottom | Push(top: T, under: Stack<T>) {

    /** The cell `depth` below the top. */
    function Peek(depth: nat): Option<T> {
      match this
      case Bottom => None
      case Push(x, u) => if depth == 0 then Some(x) else u.Peek(depth - 1)
    }
  }
}
