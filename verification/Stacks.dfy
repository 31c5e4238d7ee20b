/** The explicit stacks of the iterative machines. */
module Stacks {
  datatype Stack<+T> = Empty | Push(top: T, below: Stack<T>)

  function Height<T>(s: Stack<T>): nat {
    if s.Empty? then 0 else 1 + Height(s.below)
  }
}
