// The records of src-api/common/avl.h: tree nodes and their embedded list links.
module AvlNodes {
  // Keys are opaque; the tree only ever looks at them through its comparator.
  type Key(0, !new)

  type SignedChar = x: int | -128 <= x < 128

  // struct avl_node with its list_entity (the first member, which the C code casts
  // back and forth) folded in. A list head is a node of which only next and prev
  // are ever used.
  class AvlNode {
    const key: Key
    var next: AvlNode?
    var prev: AvlNode?
    var parent: AvlNode?
    var left: AvlNode?
    var right: AvlNode?
    var balance: SignedChar
    var follower: bool

    constructor (k: Key)
      ensures key == k && next == null && prev == null
    {
      key := k;
      next, prev, parent, left, right := null, null, null, null, null;
      balance, follower := 0, false;
    }

    // A list head.
    constructor Head()
    {
      next, prev, parent, left, right := null, null, null, null, null;
      balance, follower := 0, false;
    }
  }
}
