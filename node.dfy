/** A tree node: one value and two child links, each possibly null.
    Its getters and setters are plain field reads and writes. */
module TreeNode {

  class Node {
    var data: int
    var left: Node?
    var right: Node?

    /** A fresh node; the tree sets its value and links right after allocation. */
    constructor ()
    {
    }
  }
}
