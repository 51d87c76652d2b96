/** The node shared by both containers (`Node<T>` in lab7/main.cpp): a value,
    the owning link to the next node and, used only by the doubly-linked
    list, the non-owning link to the previous node. Ownership is not
    modelled as such: a node belongs to a list exactly when it is reachable
    from the list's head, which each list's invariant states. */
module ListNode {

  class Node<T> {
    // set by the constructor and never assigned afterwards
    const data: T
    var next: Node?<T>
    var prev: Node?<T>

    /** A fresh node holds `data` and has neither successor nor predecessor. */
    constructor (data: T)
      ensures this.data == data && next == null && prev == null
    {
      this.data := data;
      next := null;
      prev := null;
    }
  }

  /** Where a cursor stands after `k` steps along the chain `nodes`:
      node `k`, or none once it has walked off the end. The successor of
      node `i` is `At(nodes, i + 1)`. */
  ghost function At<T>(nodes: seq<Node<T>>, k: nat): (r: Node?<T>)
    requires k <= |nodes|
  {
    if k < |nodes| then nodes[k] else null
  }

  /** The node in front of position `k` of the chain `nodes`: node `k - 1`,
      or none at the front. The predecessor of node `i` is `Before(nodes, i)`. */
  ghost function Before<T>(nodes: seq<Node<T>>, k: nat): (r: Node?<T>)
    requires k <= |nodes|
  {
    if k == 0 then null else nodes[k - 1]
  }
}
