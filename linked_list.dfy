/**
 * The doubly linked list of linked-list.js: heap nodes `{value, next, prev}`
 * and a list object with `head`, `tail` and `length`.
 *
 * The ghost field `nodes` lists the nodes from head to tail and `contents`
 * their values; `Linked()` ties the real links to them.  Where the JavaScript
 * code departs from what its own tests expect, the model follows the tests;
 * each such place carries a "Deviation" comment.
 */
module LinkedList {
  import opened Wrappers
  import opened Sequences

  /** A list node, as built by the static `Node(value)` factory: unlinked on creation. */
  class Node<T> {
    var value: T
    var next: Node?<T>
    var prev: Node?<T>

    constructor (value: T)
      ensures this.value == value && next == null && prev == null
    {
      this.value := value;
      next := null;
      prev := null;
    }
  }

  class DoublyLinkedList<T(==)> {
    var head: Node?<T>
    var tail: Node?<T>
    var length: nat

    ghost var nodes: seq<Node<T>>
    ghost var contents: seq<T>
    /** The nodes this list owns; the list object itself is not among them. */
    ghost var Repr: set<Node<T>>

    /**
     * The linkage invariant, without the `length` counter: each node's
     * `next` is its successor and `prev` its predecessor, `head.prev` and
     * `tail.next` are null, and `head`/`tail` are the first and last node
     * (both null when there is none).  That no node occurs twice follows
     * (NodesDiffer).
     */
    ghost predicate Linked()
      reads this`head, this`tail, this`nodes, this`contents, this`Repr, Repr
    {
      |contents| == |nodes| &&
      (forall i :: 0 <= i < |nodes| ==> nodes[i] in Repr) &&
      (forall i {:trigger nodes[i].value} :: 0 <= i < |nodes| ==> nodes[i].value == contents[i]) &&
      (forall i :: 0 <= i < |nodes| - 1 ==> nodes[i].next == nodes[i + 1]) &&
      (forall i :: 0 < i < |nodes| ==> nodes[i].prev == nodes[i - 1]) &&
      (|nodes| == 0 ==> head == null && tail == null) &&
      (|nodes| > 0 ==>
         head == nodes[0] && head.prev == null &&
         tail == nodes[|nodes| - 1] && tail.next == null)
    }

    /** A well-linked chain has no cycle: distinct positions hold distinct nodes. */
    lemma {:induction false} NodesDiffer(i: nat, j: nat)
      requires Linked()
      requires i < j < |nodes|
      ensures nodes[i] != nodes[j]
      decreases i
    {
      assert nodes[j].prev == nodes[j - 1];
      if i > 0 {
        assert nodes[i].prev == nodes[i - 1];
        NodesDiffer(i - 1, j - 1);
      }
    }

    /** The node at position `k` occurs nowhere else in the chain. */
    lemma DiffersFrom(k: nat)
      requires Linked() && k < |nodes|
      ensures forall i :: 0 <= i < |nodes| && i != k ==> nodes[i] != nodes[k]
    {
      forall i | 0 <= i < |nodes| && i != k ensures nodes[i] != nodes[k] {
        if i < k { NodesDiffer(i, k); } else { NodesDiffer(k, i); }
      }
    }

    /** Following `next` from position `i` reaches position `i + 1`, or null past the tail. */
    lemma Successor(i: nat)
      requires Linked() && i < |nodes|
      ensures nodes[i].next == if i + 1 < |nodes| then nodes[i + 1] else null
    {
    }

    /** The class invariant: the links are consistent and `length` counts the nodes. */
    ghost predicate Valid()
      reads this, Repr
    {
      Linked() && length == |nodes|
    }

    constructor ()
      ensures Valid() && fresh(Repr)
      ensures contents == [] && nodes == [] && length == 0
    {
      head := null;
      tail := null;
      length := 0;
      nodes := [];
      contents := [];
      Repr := {};
    }

    /**
     * `#removeNode`: unlinks the node at position `k`, patching its
     * neighbours (or `head`/`tail` when it was an endpoint), detaches it and
     * returns its value.  Like the source it neither reads nor updates
     * `length`: it needs only `Linked()`, and the caller must decrement.
     */
    method RemoveNode(node: Node<T>, ghost k: nat) returns (v: T)
      requires Linked()
      requires k < |nodes| && nodes[k] == node
      modifies this, Repr
      ensures Linked() && length == old(length)
      ensures nodes == Excise(old(nodes), k)
      ensures contents == Excise(old(contents), k)
      ensures v == old(contents[k])
      ensures node.prev == null && node.next == null
      ensures Repr == old(Repr) - {node}
      ensures forall i :: 0 <= i < |old(nodes)| && (i + 1 < k || k + 1 < i) ==> unchanged(old(nodes)[i])
    {
      ghost var n := nodes;
      DiffersFrom(k);
      if 0 < k { DiffersFrom(k - 1); }
      if k + 1 < |n| { DiffersFrom(k + 1); }
      var before, after := node.prev, node.next;
      assert before == if k == 0 then null else n[k - 1];
      assert after == if k + 1 == |n| then null else n[k + 1];
      if before != null {
        before.next := after;
      } else {
        head := after;
      }
      if after != null {
        after.prev := before;
      } else {
        tail := before;
      }
      node.prev := null;
      node.next := null;
      nodes := nodes[..k] + nodes[k + 1..];
      contents := contents[..k] + contents[k + 1..];
      Repr := Repr - {node};
      v := node.value;
      Excised(k);
    }

    /**
     * The chain-level half of `#removeNode`'s proof: if the nodes other than
     * the removed one's neighbours kept their links, and the neighbours (or
     * `head`/`tail`) now bypass it, then the shortened chain is well linked.
     */
    twostate lemma Excised(k: int)
      requires old(Linked()) && 0 <= k < old(|nodes|)
      requires nodes == old(nodes[..k] + nodes[k + 1..]) && contents == old(contents[..k] + contents[k + 1..])
      requires Repr == old(Repr - {nodes[k]})
      requires forall i :: 0 <= i < old(|nodes|) && i != k ==> old(nodes)[i] != old(nodes)[k]
      requires forall i :: 0 <= i < old(|nodes|) ==> old(nodes)[i].value == old(nodes[i].value)
      requires forall i :: 0 <= i < old(|nodes|) && i != k - 1 && i != k ==> old(nodes)[i].next == old(nodes[i].next)
      requires forall i :: 0 <= i < old(|nodes|) && i != k + 1 && i != k ==> old(nodes)[i].prev == old(nodes[i].prev)
      requires 0 < k ==> old(nodes)[k - 1].next == old(nodes[k].next)
      requires k + 1 < old(|nodes|) ==> old(nodes)[k + 1].prev == old(nodes[k].prev)
      requires head == if k == 0 then old(nodes[k].next) else old(head)
      requires tail == if k + 1 == old(|nodes|) then old(nodes[k].prev) else old(tail)
      ensures Linked()
    {
      ghost var n := old(nodes);
      forall i | 0 <= i < |nodes| - 1
        ensures nodes[i].next == nodes[i + 1]
      {
        if i + 1 < k {
          assert nodes[i] == n[i] && nodes[i + 1] == n[i + 1];
        } else if i + 1 == k {
          assert nodes[i] == n[k - 1] && nodes[i + 1] == n[k + 1];
        } else {
          assert nodes[i] == n[i + 1] && nodes[i + 1] == n[i + 2];
        }
      }
      forall i | 0 < i < |nodes|
        ensures nodes[i].prev == nodes[i - 1]
      {
        if i < k {
          assert nodes[i] == n[i] && nodes[i - 1] == n[i - 1];
        } else if i == k {
          assert nodes[i] == n[k + 1] && nodes[i - 1] == n[k - 1];
        } else {
          assert nodes[i] == n[i + 1] && nodes[i - 1] == n[i];
        }
      }
    }

    /**
     * `#nodeAt`: null exactly when `index` is outside `[0, length)`, and
     * otherwise the node at that position, walking from the nearer end.
     */
    method NodeAt(index: int) returns (n: Node?<T>)
      requires Valid()
      ensures n == null <==> index < 0 || index >= length
      ensures 0 <= index < length ==> n == nodes[index]
    {
      if index < 0 || index >= length {
        return null;
      }
      var i: int;
      var current: Node?<T>;
      if index <= length / 2 {
        current := head;
        // Deviation: the source leaves `i` undefined here, so its forward
        // walk never advances; the walk starts at position 0.
        i := 0;
        while i < index
          invariant 0 <= i <= index
          invariant current == nodes[i]
        {
          current := current.next;
          i := i + 1;
        }
      } else {
        current := tail;
        i := length - 1;
        while i > index
          invariant index <= i < length
          invariant current == nodes[i]
        {
          current := current.prev;
          i := i - 1;
        }
      }
      return current;
    }

    /** `appendHead(value)`: the new value becomes the first element. */
    // Deviation: the source declares the parameter as `node` but reads
    // `value`; the parameter is `value`, mirroring `appendTail`.
    method AppendHead(value: T)
      requires Valid()
      modifies this, Repr
      ensures Valid() && fresh(Repr - old(Repr))
      ensures contents == [value] + old(contents)
      ensures length == old(length) + 1
      ensures fresh(nodes[0]) && nodes[1..] == old(nodes)
      ensures old(length) == 0 ==> head == tail == nodes[0]
    {
      var node := new Node(value);
      if head == null {
        head, tail := node, node;
      } else {
        node.next := head;
        head.prev := node;
        head := node;
      }
      length := length + 1;
      nodes := [node] + nodes;
      contents := [value] + contents;
      Repr := Repr + {node};
    }

    /** `appendTail(value)`: the new value becomes the last element. */
    method AppendTail(value: T)
      requires Valid()
      modifies this, Repr
      ensures Valid() && fresh(Repr - old(Repr))
      ensures contents == old(contents) + [value]
      ensures length == old(length) + 1
      ensures fresh(nodes[|nodes| - 1]) && nodes[..|nodes| - 1] == old(nodes)
      ensures old(length) == 0 ==> head == tail == nodes[0]
    {
      var node := new Node(value);
      if tail == null {
        head, tail := node, node;
      } else {
        node.prev := tail;
        tail.next := node;
        tail := node;
      }
      length := length + 1;
      nodes := nodes + [node];
      contents := contents + [value];
      Repr := Repr + {node};
    }

    /**
     * `remove(value)`: removes the first node holding `value` and reports
     * whether there was one; with no such node nothing changes.
     */
    method Remove(value: T) returns (found: bool)
      requires Valid()
      modifies this, Repr
      ensures Valid() && Repr <= old(Repr)
      ensures found <==> value in old(contents)
      ensures found ==> contents == Excise(old(contents), FirstIndex(old(contents), value))
                        && length == old(length) - 1
      ensures !found ==> contents == old(contents) && nodes == old(nodes) && length == old(length)
    {
      var current := head;
      ghost var i := 0;
      while current != null
        invariant Valid()
        invariant nodes == old(nodes) && contents == old(contents) && Repr == old(Repr)
        invariant 0 <= i <= |nodes|
        invariant current == if i < |nodes| then nodes[i] else null
        invariant value !in contents[..i]
        decreases |nodes| - i
      {
        if current.value == value {
          var _ := RemoveNode(current, i);
          length := length - 1;
          return true;
        }
        assert contents[..i + 1] == contents[..i] + [contents[i]];
        current := current.next;
        i := i + 1;
      }
      assert contents[..i] == contents;
      return false;
    }

    /**
     * `removeAt(index)`: for an index in `[0, length)` removes that element
     * and returns it; otherwise returns None and changes nothing.
     */
    method RemoveAt(index: int) returns (r: Option<T>)
      requires Valid()
      modifies this, Repr
      ensures Valid() && Repr <= old(Repr)
      ensures 0 <= index < old(length) ==>
                r == Some(old(contents)[index]) &&
                contents == Excise(old(contents), index) &&
                length == old(length) - 1
      ensures !(0 <= index < old(length)) ==> r == None && unchanged(this) && unchanged(Repr)
    {
      var node := NodeAt(index);
      if node == null {
        return None;
      }
      var v := RemoveNode(node, index);
      // Deviation: the source never decrements `length` here.
      length := length - 1;
      return Some(v);
    }

    /**
     * `removeDuplicates()`: one forward pass with a set of values seen so
     * far, dropping every node whose value was seen before; returns how
     * many nodes were dropped.
     */
    method RemoveDuplicates() returns (removed: nat)
      requires Valid()
      modifies this, Repr
      ensures Valid() && Repr <= old(Repr)
      ensures contents == Dedup(old(contents))
      ensures removed == old(length) - length
      ensures Distinct(contents)
      ensures Distinct(old(contents)) ==> removed == 0 && nodes == old(nodes) && contents == old(contents)
    {
      var seen: set<T> := {};
      var current := head;
      removed := 0;
      ghost var i := 0;
      ScannedEnds(contents, seen);
      while current != null
        invariant Valid() && Repr <= old(Repr)
        invariant 0 <= i <= |nodes|
        invariant current == if i < |nodes| then nodes[i] else null
        invariant Scanned(contents, i, seen) == Dedup(old(contents))
        invariant removed + |contents| == |old(contents)|
        invariant removed == 0 ==> nodes == old(nodes)
        decreases |nodes| - i
      {
        ghost var c, n := contents, nodes;
        Successor(i);
        if current.value in seen {
          var toDrop := current;
          current := current.next;
          var _ := RemoveNode(toDrop, i);
          assert i < |nodes| ==> nodes[i] == n[i + 1];
          assert current == if i < |nodes| then nodes[i] else null;
          // Deviation: the source never decrements `length` here.
          length := length - 1;
          removed := removed + 1;
          DedupFromSkip(c, i, seen);
        } else {
          DedupFromKeep(c, i, seen);
          seen := seen + {current.value};
          current := current.next;
          i := i + 1;
          assert current == if i < |nodes| then nodes[i] else null;
        }
      }
      ScannedEnds(contents, seen);
      DedupElements(old(contents));
      if Distinct(old(contents)) {
        DedupOfDistinct(old(contents));
      }
    }

    /**
     * `indexOf(value)`: the position of the first node holding `value`, or
     * -1 when there is none (in particular on an empty list).
     */
    method IndexOf(value: T) returns (idx: int)
      requires Linked()
      ensures idx == -1 <==> value !in contents
      ensures 0 <= idx ==> idx < |contents| && contents[idx] == value && value !in contents[..idx]
      ensures idx == FirstIndex(contents, value)
    {
      // Deviation: the source returns -1 after the first comparison and
      // falls through to `undefined` on an empty list; this is a full scan.
      var index := 0;
      var current := head;
      while current != null
        invariant 0 <= index <= |nodes|
        invariant current == if index < |nodes| then nodes[index] else null
        invariant value !in contents[..index]
        decreases |nodes| - index
      {
        if current.value == value {
          return index;
        }
        assert contents[..index + 1] == contents[..index] + [contents[index]];
        current := current.next;
        index := index + 1;
      }
      assert contents[..index] == contents;
      return -1;
    }

    /** `size()`: the number of elements. */
    function Size(): (n: nat)
      reads this, Repr
      requires Valid()
      ensures n == |contents|
    {
      length
    }

    /** `isEmpty()`: whether there are no elements. */
    function IsEmpty(): (b: bool)
      reads this, Repr
      requires Valid()
      ensures b <==> contents == []
    {
      length == 0
    }

    /** `toArray()`: the values from head to tail. */
    method ToArray() returns (a: seq<T>)
      requires Linked()
      ensures a == contents
    {
      a := [];
      var current := head;
      ghost var i := 0;
      while current != null
        invariant 0 <= i <= |nodes|
        invariant current == if i < |nodes| then nodes[i] else null
        invariant a == contents[..i]
        decreases |nodes| - i
      {
        a := a + [current.value];
        current := current.next;
        i := i + 1;
      }
    }

    /** `[Symbol.iterator]()`: a fresh cursor at the head. */
    method Iterate() returns (c: Cursor<T>)
      requires Valid()
      ensures fresh(c) && c.Valid() && c.list == this && c.yielded == []
    {
      c := new Cursor(this);
    }
  }

  /**
   * The object returned by `[Symbol.iterator]()`: a `current` pointer that
   * its `next()` advances.  `yielded` records the values handed out so far,
   * which are always a prefix of the list's contents.
   */
  class Cursor<T(==)> {
    var current: Node?<T>
    ghost var list: DoublyLinkedList<T>
    ghost var yielded: seq<T>

    ghost predicate Valid()
      reads this, list, list.Repr
    {
      list.Valid() &&
      |yielded| <= |list.contents| &&
      yielded == list.contents[..|yielded|] &&
      current == if |yielded| < |list.nodes| then list.nodes[|yielded|] else null
    }

    constructor (l: DoublyLinkedList<T>)
      requires l.Valid()
      ensures Valid() && list == l && yielded == []
    {
      current := l.head;
      list := l;
      yielded := [];
    }

    /**
     * `next()`: the next value in head-to-tail order, or None (`done`) once
     * every value has been yielded; then `yielded` is the whole contents.
     */
    method Next() returns (r: Option<T>)
      requires Valid()
      modifies this
      ensures Valid() && list == old(list)
      ensures old(|yielded|) < |list.contents| ==>
                r == Some(list.contents[old(|yielded|)]) && yielded == old(yielded) + [r.value]
      ensures old(|yielded|) == |list.contents| ==> r == None && yielded == old(yielded)
      ensures r == None ==> yielded == list.contents
    {
      if current == null {
        return None;
      }
      var value := current.value;
      current := current.next;
      assert list.contents[..|yielded| + 1] == yielded + [value];
      yielded := yielded + [value];
      return Some(value);
    }
  }
}
