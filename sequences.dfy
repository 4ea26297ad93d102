/**
 * The abstract meaning of the list operations, stated on plain sequences:
 * the head-to-tail values of a list are a `seq<T>`, and each mutating
 * operation of the linked list is specified by one of these functions.
 */
module Sequences {

  /** No value occurs twice in `s`. */
  predicate Distinct<T(==)>(s: seq<T>) {
    forall i, j :: 0 <= i < j < |s| ==> s[i] != s[j]
  }

  /** Zero-based position of the first occurrence of `v` in `s`, or -1 when `v` does not occur. */
  function FirstIndex<T(==)>(s: seq<T>, v: T): (r: int)
    ensures -1 <= r < |s|
    ensures r == -1 <==> v !in s
    ensures 0 <= r ==> s[r] == v && v !in s[..r]
    decreases |s|
  {
    if s == [] then -1
    else if s[0] == v then 0
    else
      var r := FirstIndex(s[1..], v);
      if r == -1 then -1
      else
        assert s[..r + 1] == [s[0]] + s[1..][..r];
        r + 1
  }

  /** `s` with the element at position `k` cut out, the others kept in order. */
  function Excise<T>(s: seq<T>, k: nat): (r: seq<T>)
    requires k < |s|
    ensures |r| == |s| - 1
  {
    s[..k] + s[k + 1..]
  }

  /** Cutting out one position removes exactly one copy of the value stored there. */
  lemma ExciseMultiset<T>(s: seq<T>, k: nat)
    requires k < |s|
    ensures multiset(Excise(s, k)) == multiset(s) - multiset{s[k]}
  {
    assert s == s[..k] + [s[k]] + s[k + 1..];
    assert multiset(s) == multiset(s[..k]) + multiset{s[k]} + multiset(s[k + 1..]);
  }

  /**
   * Keeps each value of `s` that is not in `seen` at its first occurrence,
   * in the original order; `seen` grows as the scan goes right.
   */
  function DedupFrom<T(==)>(s: seq<T>, seen: set<T>): (r: seq<T>)
    ensures |r| <= |s|
    decreases |s|
  {
    if s == [] then []
    else if s[0] in seen then DedupFrom(s[1..], seen)
    else [s[0]] + DedupFrom(s[1..], seen + {s[0]})
  }

  /** The scan keeps exactly the values of `s` outside `seen`, each once. */
  lemma {:induction false} DedupFromElements<T>(s: seq<T>, seen: set<T>)
    ensures forall x :: x in DedupFrom(s, seen) <==> x in s && x !in seen
    ensures Distinct(DedupFrom(s, seen))
    decreases |s|
  {
    if s != [] {
      if s[0] in seen {
        DedupFromElements(s[1..], seen);
      } else {
        var rest := DedupFrom(s[1..], seen + {s[0]});
        DedupFromElements(s[1..], seen + {s[0]});
        assert DedupFrom(s, seen) == [s[0]] + rest;
        forall x ensures x in s <==> x == s[0] || x in s[1..] {
          assert s == [s[0]] + s[1..];
        }
      }
    }
  }

  /**
   * The outcome of a scan that has kept `s[..i]` and will prune the rest
   * against `seen`.
   */
  ghost function Scanned<T>(s: seq<T>, i: nat, seen: set<T>): seq<T>
    requires i <= |s|
  {
    s[..i] + DedupFrom(s[i..], seen)
  }

  /** A scan step over a value already seen: cutting it out leaves the outcome unchanged. */
  lemma DedupFromSkip<T>(s: seq<T>, i: nat, seen: set<T>)
    requires i < |s| && s[i] in seen
    ensures Scanned(Excise(s, i), i, seen) == Scanned(s, i, seen)
  {
    assert s[i..][1..] == s[i + 1..];
    assert Excise(s, i)[..i] == s[..i];
    assert Excise(s, i)[i..] == s[i + 1..];
  }

  /** A scan step over a new value keeps it and records it as seen. */
  lemma DedupFromKeep<T>(s: seq<T>, i: nat, seen: set<T>)
    requires i < |s| && s[i] !in seen
    ensures Scanned(s, i, seen) == Scanned(s, i + 1, seen + {s[i]})
  {
    assert s[i..][1..] == s[i + 1..];
    assert s[..i + 1] == s[..i] + [s[i]];
  }

  /** A scan that has not started is a plain prune; one that has reached the end kept everything. */
  lemma ScannedEnds<T>(s: seq<T>, seen: set<T>)
    ensures Scanned(s, 0, seen) == DedupFrom(s, seen)
    ensures Scanned(s, |s|, seen) == s
  {
    assert s[..0] == [] && s[0..] == s;
    assert s[..|s|] == s && s[|s|..] == [];
  }

  /** First-occurrence-preserving duplicate pruning. */
  function Dedup<T(==)>(s: seq<T>): (r: seq<T>)
    ensures |r| <= |s|
  {
    DedupFrom(s, {})
  }

  /** Pruning keeps every value of `s`, and each exactly once. */
  lemma DedupElements<T>(s: seq<T>)
    ensures forall x :: x in Dedup(s) <==> x in s
    ensures Distinct(Dedup(s))
  {
    DedupFromElements(s, {});
  }

  /** Appending one value to the scanned sequence appends it to the result iff it is new. */
  lemma {:induction false} DedupFromSnoc<T>(s: seq<T>, x: T, seen: set<T>)
    ensures DedupFrom(s + [x], seen) ==
            DedupFrom(s, seen) + (if x in s || x in seen then [] else [x])
    decreases |s|
  {
    if s == [] {
      assert [] + [x] == [x];
    } else {
      assert (s + [x])[1..] == s[1..] + [x];
      if s[0] in seen {
        DedupFromSnoc(s[1..], x, seen);
      } else {
        DedupFromSnoc(s[1..], x, seen + {s[0]});
      }
    }
  }

  /**
   * Reference characterisation of Dedup, one value at a time from the left:
   * a value is kept exactly when it has not occurred before.
   */
  lemma DedupSnoc<T>(s: seq<T>, x: T)
    ensures Dedup(s + [x]) == if x in s then Dedup(s) else Dedup(s) + [x]
  {
    DedupFromSnoc(s, x, {});
  }

  /** A scan over values that are already distinct and unseen drops nothing. */
  lemma {:induction false} DedupFromOfDistinct<T>(s: seq<T>, seen: set<T>)
    requires Distinct(s)
    requires forall x :: x in s ==> x !in seen
    ensures DedupFrom(s, seen) == s
    decreases |s|
  {
    if s != [] {
      assert s[0] !in seen;
      assert Distinct(s[1..]);
      forall x | x in s[1..] ensures x !in seen + {s[0]} {
        var j :| 1 <= j < |s| && s[j] == x;
      }
      DedupFromOfDistinct(s[1..], seen + {s[0]});
    }
  }

  /** Dedup leaves a duplicate-free sequence unchanged. */
  lemma DedupOfDistinct<T>(s: seq<T>)
    requires Distinct(s)
    ensures Dedup(s) == s
  {
    DedupFromOfDistinct(s, {});
  }

  /** Pruning duplicates twice is the same as pruning them once. */
  lemma DedupIdempotent<T>(s: seq<T>)
    ensures Dedup(Dedup(s)) == Dedup(s)
  {
    DedupElements(s);
    DedupOfDistinct(Dedup(s));
  }
}
