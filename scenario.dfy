/**
 * The usage script at the end of linked-list.js, replayed on the corrected
 * model with the results its calls produce there.  The script builds its list with a
 * final `appendTail(30)` (line 168), so the list holds 30, 10, 20, 20, 15, 30
 * and every later state follows from that, whatever the literals next to
 * the script's assertions say.
 */
module Scenario {
  import opened Wrappers
  import opened Sequences
  import opened LinkedList

  /** One insertion of a build: `appendHead(value)` or `appendTail(value)`. */
  datatype Insertion<T> = AtHead(value: T) | AtTail(value: T)

  /** The values of a sequence of insertions, in the order they are inserted. */
  function Values<T>(ops: seq<Insertion<T>>): (r: seq<T>)
    ensures |r| == |ops|
    ensures forall i :: 0 <= i < |ops| ==> r[i] == ops[i].value
  {
    seq(|ops|, i requires 0 <= i < |ops| => ops[i].value)
  }

  /** `s` back to front. */
  function Reverse<T>(s: seq<T>): (r: seq<T>)
    ensures |r| == |s|
    ensures forall i :: 0 <= i < |s| ==> r[i] == s[|s| - 1 - i]
  {
    seq(|s|, i requires 0 <= i < |s| => s[|s| - 1 - i])
  }

  /**
   * The reference meaning of a build on a plain sequence: a head insertion
   * pushes in front (a stack), a tail insertion appends (a queue).
   */
  function Simulate<T>(ops: seq<Insertion<T>>): (r: seq<T>)
    ensures |r| == |ops|
    decreases |ops|
  {
    if ops == [] then []
    else
      var s := Simulate(ops[..|ops| - 1]);
      match ops[|ops| - 1]
      case AtHead(v) => [v] + s
      case AtTail(v) => s + [v]
  }

  /** A build only rearranges the inserted values: none is lost and none is added. */
  lemma {:induction false} SimulateMultiset<T>(ops: seq<Insertion<T>>)
    ensures multiset(Simulate(ops)) == multiset(Values(ops))
    decreases |ops|
  {
    if ops != [] {
      var init := ops[..|ops| - 1];
      SimulateMultiset(init);
      assert Values(ops) == Values(init) + [ops[|ops| - 1].value];
    }
  }

  /** Tail insertions alone keep the insertion order. */
  lemma {:induction false} SimulateTails<T>(ops: seq<Insertion<T>>)
    requires forall i :: 0 <= i < |ops| ==> ops[i].AtTail?
    ensures Simulate(ops) == Values(ops)
    decreases |ops|
  {
    if ops != [] {
      var init := ops[..|ops| - 1];
      SimulateTails(init);
      assert Values(ops) == Values(init) + [ops[|ops| - 1].value];
    }
  }

  /** Head insertions alone reverse the insertion order. */
  lemma {:induction false} SimulateHeads<T>(ops: seq<Insertion<T>>)
    requires forall i :: 0 <= i < |ops| ==> ops[i].AtHead?
    ensures Simulate(ops) == Reverse(Values(ops))
    decreases |ops|
  {
    if ops != [] {
      var init := ops[..|ops| - 1];
      SimulateHeads(init);
      assert Reverse(Values(ops)) == [ops[|ops| - 1].value] + Reverse(Values(init));
    }
  }

  /** Runs a build on a fresh list; its contents are exactly the simulated sequence. */
  method Build<T(==)>(ops: seq<Insertion<T>>) returns (l: DoublyLinkedList<T>)
    ensures fresh(l) && fresh(l.Repr) && l.Valid()
    ensures l.contents == Simulate(ops) && l.Size() == |ops|
  {
    l := new DoublyLinkedList();
    var i := 0;
    while i < |ops|
      invariant 0 <= i <= |ops|
      invariant fresh(l) && fresh(l.Repr) && l.Valid()
      invariant l.contents == Simulate(ops[..i])
    {
      assert ops[..i + 1][..i] == ops[..i];
      match ops[i] {
        case AtHead(v) => l.AppendHead(v);
        case AtTail(v) => l.AppendTail(v);
      }
      i := i + 1;
    }
    assert ops[..i] == ops;
  }

  /**
   * Consumes a fresh iterator until it reports `done`, as a `for...of` loop
   * or the spread `[...list]` does; the values come out exactly as
   * `toArray()` returns them.
   */
  method Spread<T(==)>(l: DoublyLinkedList<T>) returns (s: seq<T>)
    requires l.Valid()
    ensures s == l.contents
  {
    var c := l.Iterate();
    s := [];
    var done := false;
    while !done
      invariant c.Valid() && c.list == l && s == c.yielded
      invariant done ==> s == l.contents
      decreases |l.contents| - |c.yielded|, !done
    {
      var r := c.Next();
      match r {
        case None => done := true;
        case Some(v) => s := s + [v];
      }
    }
  }

  /** Lines 162-168: two values at the head, four at the tail. */
  method BuildScriptList() returns (l: DoublyLinkedList<int>)
    ensures fresh(l) && fresh(l.Repr) && l.Valid()
    ensures l.contents == [30, 10, 20, 20, 15, 30]
  {
    l := new DoublyLinkedList();
    l.AppendHead(10);
    l.AppendTail(20);
    l.AppendTail(20);
    l.AppendHead(30);
    l.AppendTail(15);
    l.AppendTail(30);
  }

  /** Pruning the list as it stands before line 188 keeps 10, 20 and 30. */
  lemma ScriptDedup()
    ensures Dedup([10, 20, 20, 30]) == [10, 20, 30]
  {
    assert [10, 20, 20, 30] == [10, 20, 20] + [30];
    assert [10, 20, 20] == [10, 20] + [20];
    assert [10, 20] == [10] + [20];
    assert [10] == [] + [10];
    DedupSnoc([], 10);
    DedupSnoc([10], 20);
    DedupSnoc([10, 20], 20);
    DedupSnoc([10, 20, 20], 30);
  }

  /** Lines 170-173: the queries on the freshly built list. */
  method Queries(l: DoublyLinkedList<int>) returns (values: seq<int>, size: nat, at10: int, at777: int)
    requires l.Valid() && l.contents == [30, 10, 20, 20, 15, 30]
    ensures values == [30, 10, 20, 20, 15, 30] && size == 6
    ensures at10 == 1 && at777 == -1
  {
    values := l.ToArray();
    size := l.Size();
    at10 := l.IndexOf(10);
    at777 := l.IndexOf(777);
  }

  /** Lines 174-186: removing the first 30, then the element at position 3. */
  method Removals(l: DoublyLinkedList<int>) returns (removed30: bool, afterRemove: seq<int>,
                                                   removedAt3: Option<int>, afterRemoveAt: seq<int>)
    requires l.Valid() && l.contents == [30, 10, 20, 20, 15, 30]
    modifies l, l.Repr
    ensures l.Valid() && l.Repr <= old(l.Repr) && l.contents == [10, 20, 20, 30]
    ensures removed30 && afterRemove == [10, 20, 20, 15, 30]
    ensures removedAt3 == Some(15) && afterRemoveAt == [10, 20, 20, 30]
  {
    removed30 := l.Remove(30);
    afterRemove := l.ToArray();
    removedAt3 := l.RemoveAt(3);
    afterRemoveAt := l.ToArray();
  }

  /** Lines 188-191, and a second pass that finds nothing left to remove. */
  method Pruning(l: DoublyLinkedList<int>) returns (duplicates: nat, final: seq<int>, finalSize: nat, again: nat)
    requires l.Valid() && l.contents == [10, 20, 20, 30]
    modifies l, l.Repr
    ensures duplicates == 1 && final == [10, 20, 30] && finalSize == 3
    ensures again == 0
  {
    ScriptDedup();
    duplicates := l.RemoveDuplicates();
    final := l.ToArray();
    finalSize := l.Size();
    again := l.RemoveDuplicates();
  }

  /** Lines 170-191: every query and update of the script, in order, with its outcome. */
  method Script() returns (initial: seq<int>, size: nat, at10: int, at777: int,
                           removed30: bool, afterRemove: seq<int>,
                           removedAt3: Option<int>, afterRemoveAt: seq<int>,
                           duplicates: nat, final: seq<int>, finalSize: nat, again: nat)
    ensures initial == [30, 10, 20, 20, 15, 30] && size == 6
    ensures at10 == 1 && at777 == -1
    ensures removed30 && afterRemove == [10, 20, 20, 15, 30]
    ensures removedAt3 == Some(15) && afterRemoveAt == [10, 20, 20, 30]
    ensures duplicates == 1 && final == [10, 20, 30] && finalSize == 3
    ensures again == 0
  {
    var l := BuildScriptList();
    initial, size, at10, at777 := Queries(l);
    removed30, afterRemove, removedAt3, afterRemoveAt := Removals(l);
    duplicates, final, finalSize, again := Pruning(l);
  }
}
