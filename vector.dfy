/** The growable vector the traversals fill: only appending is used. */
module Vectors {

  class Vector {
    var elems: seq<int>

    /** An empty vector. */
    constructor ()
      ensures elems == []
    {
      elems := [];
    }

    /** Appends x at the end. */
    method PushBack(x: int)
      modifies this
      ensures elems == old(elems) + [x]
    {
      elems := elems + [x];
    }
  }
}
