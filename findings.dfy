/**
 * Four methods of linked-list.js exactly as they are written, beside the
 * corrected versions in module LinkedList.  Each as-written method states in
 * its contract how its outcome departs from what the list's own usage
 * expects, and the witnesses below build a concrete list that shows it.
 */
module AsWritten {
  import opened Wrappers
  import opened Sequences
  import opened LinkedList
  import opened Scenario

  /**
   * `#nodeAt` as written: the counter `i` of the forward walk is never
   * initialised, `undefined < index` is false, so that walk never moves and
   * every index in the first half yields the head.
   */
  method NodeAtAsWritten<T>(l: DoublyLinkedList<T>, index: int) returns (n: Node?<T>)
    requires l.Valid()
    ensures n == null <==> index < 0 || index >= l.length
    ensures 0 <= index <= l.length / 2 && index < l.length ==> n == l.nodes[0]
    ensures l.length / 2 < index < l.length ==> n == l.nodes[index]
    ensures 0 < index <= l.length / 2 ==> n != l.nodes[index]
  {
    if index < 0 || index >= l.length {
      return null;
    }
    var current: Node?<T>;
    if index <= l.length / 2 {
      current := l.head;
      // The loop `while (i < index)` runs zero times: `i` is undefined.
      if 0 < index {
        l.NodesDiffer(0, index);
      }
    } else {
      current := l.tail;
      var i := l.length - 1;
      while i > index
        invariant index <= i < l.length
        invariant current == l.nodes[i]
      {
        current := current.prev;
        i := i - 1;
      }
    }
    return current;
  }

  /**
   * `indexOf` as written: the `return -1` sits inside the loop, so only the
   * head is compared; on an empty list the function falls off its end and
   * yields `undefined`, modelled as None.
   */
  method IndexOfAsWritten<T(==)>(l: DoublyLinkedList<T>, value: T) returns (r: Option<int>)
    requires l.Valid()
    ensures r == None <==> l.contents == []
    ensures l.contents != [] ==> r == Some(if l.contents[0] == value then 0 else -1)
    ensures l.contents != [] && l.contents[0] != value && value in l.contents ==>
              r != Some(FirstIndex(l.contents, value))
  {
    var index := 0;
    var current := l.head;
    if current != null {
      if current.value == value {
        return Some(index);
      }
      return Some(-1);
    }
    return None;
  }

  /**
   * `removeAt` as written: the node comes from the as-written `#nodeAt`, so
   * an index in the first half removes the head, and the node is unlinked
   * without decrementing `length`, so afterwards `size()` overstates the
   * contents by one and the class invariant no longer holds.
   */
  method RemoveAtAsWritten<T>(l: DoublyLinkedList<T>, index: int) returns (r: Option<T>)
    requires l.Valid()
    modifies l, l.Repr
    ensures l.Linked() && l.length == old(l.length)
    ensures 0 <= index < old(l.length) ==>
              var p := if index <= old(l.length) / 2 then 0 else index;
              r == Some(old(l.contents)[p]) &&
              l.contents == Excise(old(l.contents), p) &&
              l.length == |l.contents| + 1 && !l.Valid()
    ensures !(0 <= index < old(l.length)) ==> r == None && unchanged(l) && unchanged(l.Repr)
  {
    var node := NodeAtAsWritten(l, index);
    if node == null {
      return None;
    }
    ghost var p := if index <= l.length / 2 then 0 else index;
    var v := l.RemoveNode(node, p);
    return Some(v);
  }

  /**
   * `removeDuplicates` as written: the duplicates are unlinked but `length`
   * keeps its old value, so whenever anything was removed `size()` is stale.
   */
  method RemoveDuplicatesAsWritten<T(==)>(l: DoublyLinkedList<T>) returns (removed: nat)
    requires l.Valid()
    modifies l, l.Repr
    ensures l.Linked() && l.length == old(l.length)
    ensures l.contents == Dedup(old(l.contents))
    ensures removed == l.length - |l.contents|
    ensures removed > 0 ==> !l.Valid()
  {
    var seen: set<T> := {};
    var current := l.head;
    removed := 0;
    ghost var i := 0;
    ScannedEnds(l.contents, seen);
    while current != null
      invariant l.Linked() && l.Repr <= old(l.Repr) && l.length == old(l.length)
      invariant 0 <= i <= |l.nodes|
      invariant current == if i < |l.nodes| then l.nodes[i] else null
      invariant Scanned(l.contents, i, seen) == Dedup(old(l.contents))
      invariant removed + |l.contents| == |old(l.contents)|
      decreases |l.nodes| - i
    {
      ghost var c, n := l.contents, l.nodes;
      l.Successor(i);
      if current.value in seen {
        var toDrop := current;
        current := current.next;
        var _ := l.RemoveNode(toDrop, i);
        assert i < |l.nodes| ==> l.nodes[i] == n[i + 1];
        assert current == if i < |l.nodes| then l.nodes[i] else null;
        removed := removed + 1;
        DedupFromSkip(c, i, seen);
      } else {
        DedupFromKeep(c, i, seen);
        seen := seen + {current.value};
        current := current.next;
        i := i + 1;
        assert current == if i < |l.nodes| then l.nodes[i] else null;
      }
    }
    ScannedEnds(l.contents, seen);
  }

  /** On the script's list, `indexOf(10)` as written answers -1 although 10 is at position 1. */
  method IndexOfWitness() returns (asWritten: Option<int>, corrected: int)
    ensures asWritten == Some(-1) && corrected == 1
  {
    var l := BuildScriptList();
    asWritten := IndexOfAsWritten(l, 10);
    corrected := l.IndexOf(10);
  }

  /** On the script's list, the as-written `#nodeAt(1)` is the node of 30, not that of 10. */
  method NodeAtWitness() returns (asWritten: int, corrected: int)
    ensures asWritten == 30 && corrected == 10
  {
    var l := BuildScriptList();
    var n := NodeAtAsWritten(l, 1);
    var m := l.NodeAt(1);
    asWritten, corrected := n.value, m.value;
  }

  /**
   * On the script's list, the as-written `removeAt(3)` removes the head 30
   * in place of the 20 at position 3, and `length` stays 6 while 5 values remain.
   */
  method RemoveAtWitness() returns (removed: Option<int>, length: nat, values: seq<int>)
    ensures removed == Some(30) && length == 6 && values == [10, 20, 20, 15, 30]
  {
    var l := BuildScriptList();
    removed := RemoveAtAsWritten(l, 3);
    length := l.length;
    values := l.ToArray();
  }

  /** Pruning 10, 20, 20, 30 as written drops one node, yet `length` stays 4 while three values remain. */
  method RemoveDuplicatesWitness() returns (removed: nat, length: nat, values: seq<int>)
    ensures removed == 1 && length == 4 && values == [10, 20, 30]
  {
    var l := new DoublyLinkedList();
    l.AppendTail(10);
    l.AppendTail(20);
    l.AppendTail(20);
    l.AppendTail(30);
    assert l.contents == [10, 20, 20, 30];
    ScriptDedup();
    removed := RemoveDuplicatesAsWritten(l);
    length := l.length;
    values := l.ToArray();
  }
}
