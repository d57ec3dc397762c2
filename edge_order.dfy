/** The order in which the path search tries a node's incident edges
    (sortEdgesByClosestIntersectionToDestination in planning/Graph.java),
    stated over any key that gives each edge an optional distance: edges with
    a key come first, by nondecreasing key, and edges without one follow. */
module EdgeOrder {
  import opened Common

  /** An edge with key `a` may stand before an edge with key `b`. */
  predicate KeyLe(a: Option<real>, b: Option<real>)
  {
    match a
    case None => b.None?
    case Some(x) => b.None? || x <= b.value
  }

  /** An edge at distance `d` is inserted before an edge with key `b`. */
  predicate GoesBefore(d: real, b: Option<real>)
  {
    b.None? || d < b.value
  }

  predicate Ordered(s: seq<nat>, key: nat -> Option<real>)
  {
    forall i, j :: 0 <= i < j < |s| ==> KeyLe(key(s[i]), key(s[j]))
  }

  /** The first index at which an edge at distance `d` goes. */
  function InsertPos(s: seq<nat>, key: nat -> Option<real>, d: real): (i: nat)
    ensures i <= |s|
    ensures forall k :: 0 <= k < i ==> !GoesBefore(d, key(s[k]))
    ensures i < |s| ==> GoesBefore(d, key(s[i]))
  {
    if s == [] then 0
    else if GoesBefore(d, key(s[0])) then 0
    else 1 + InsertPos(s[1..], key, d)
  }

  /** The first index at which the insertion condition holds is unique. */
  lemma {:induction false} InsertPosUnique(s: seq<nat>, key: nat -> Option<real>, d: real, i: nat)
    requires i <= |s|
    requires forall k :: 0 <= k < i ==> !GoesBefore(d, key(s[k]))
    requires i < |s| ==> GoesBefore(d, key(s[i]))
    ensures InsertPos(s, key, d) == i
  {
  }

  /** One edge placed into the list built so far: an edge without a key is
      appended; otherwise it goes before the first edge without a key or with
      a strictly greater key. */
  function Insert(s: seq<nat>, key: nat -> Option<real>, e: nat): seq<nat>
  {
    match key(e)
    case None => s + [e]
    case Some(d) => var i := InsertPos(s, key, d); s[..i] + [e] + s[i..]
  }

  /** The incident edges, inserted one at a time in incidence order. */
  function Sort(s: seq<nat>, key: nat -> Option<real>): (r: seq<nat>)
    ensures multiset(r) == multiset(s)
  {
    if s == [] then []
    else
      var pre := s[..|s| - 1];
      InsertPermutes(Sort(pre, key), key, s[|s| - 1]);
      assert s == pre + [s[|s| - 1]];
      Insert(Sort(pre, key), key, s[|s| - 1])
  }

  /** One more pass of the sort: inserting the next edge into the sorted
      prefix sorts the longer prefix. */
  lemma SortStep(s: seq<nat>, key: nat -> Option<real>, k: nat, sorted: seq<nat>)
    requires k < |s| && sorted == Sort(s[..k], key)
    ensures Insert(sorted, key, s[k]) == Sort(s[..k + 1], key)
  {
    assert s[..k + 1][..k] == s[..k];
  }

  lemma InsertPermutes(s: seq<nat>, key: nat -> Option<real>, e: nat)
    ensures multiset(Insert(s, key, e)) == multiset(s) + multiset{e}
  {
    if key(e).Some? {
      var i := InsertPos(s, key, key(e).value);
      assert s == s[..i] + s[i..];
    }
  }

  /** Inserting keeps the list ordered. */
  lemma {:induction false} InsertOrdered(s: seq<nat>, key: nat -> Option<real>, e: nat)
    requires Ordered(s, key)
    ensures Ordered(Insert(s, key, e), key)
  {
    match key(e)
    case None =>
      var r := s + [e];
      forall i, j | 0 <= i < j < |r| ensures KeyLe(key(r[i]), key(r[j])) {
        if j == |s| {
          assert KeyLe(key(r[i]), None);
        }
      }
    case Some(d) =>
      var p := InsertPos(s, key, d);
      var r := s[..p] + [e] + s[p..];
      forall i, j | 0 <= i < j < |r| ensures KeyLe(key(r[i]), key(r[j])) {
        if i < p && j == p {
          assert !GoesBefore(d, key(s[i]));
        } else if i == p && j > p {
          assert GoesBefore(d, key(s[p]));
          assert KeyLe(key(s[p]), key(s[j - 1])) || p == j - 1;
        } else if i < p && j > p {
          assert KeyLe(key(s[i]), key(s[j - 1]));
        } else if i > p {
          assert KeyLe(key(s[i - 1]), key(s[j - 1]));
        }
      }
  }

  /** The sorted list is ordered by key, edges without a key last. */
  lemma {:induction false} SortOrdered(s: seq<nat>, key: nat -> Option<real>)
    ensures Ordered(Sort(s, key), key)
  {
    if s != [] {
      SortOrdered(s[..|s| - 1], key);
      InsertOrdered(Sort(s[..|s| - 1], key), key, s[|s| - 1]);
    }
  }

  /** The edges of `s` whose key is `k`, in their order in `s`. */
  function Select(s: seq<nat>, key: nat -> Option<real>, k: Option<real>): (r: seq<nat>)
    ensures forall i :: 0 <= i < |r| ==> key(r[i]) == k
  {
    if s == [] then []
    else (if key(s[0]) == k then [s[0]] else []) + Select(s[1..], key, k)
  }

  lemma {:induction false} SelectAppend(a: seq<nat>, b: seq<nat>, key: nat -> Option<real>, k: Option<real>)
    ensures Select(a + b, key, k) == Select(a, key, k) + Select(b, key, k)
  {
    if a != [] {
      assert (a + b)[0] == a[0] && (a + b)[1..] == a[1..] + b;
      SelectAppend(a[1..], b, key, k);
    } else {
      assert a + b == b;
    }
  }

  /** No edge of `s` has key `k` when every key in `s` is none or greater than `d`. */
  lemma {:induction false} SelectNone(s: seq<nat>, key: nat -> Option<real>, d: real)
    requires forall i :: 0 <= i < |s| ==> GoesBefore(d, key(s[i]))
    ensures Select(s, key, Some(d)) == []
  {
    if s != [] {
      SelectNone(s[1..], key, d);
    }
  }

  /** Selecting from a list with one edge inserted at `p`. */
  lemma SelectSplit(s: seq<nat>, key: nat -> Option<real>, e: nat, k: Option<real>, p: nat)
    requires p <= |s|
    ensures Select(s, key, k) == Select(s[..p], key, k) + Select(s[p..], key, k)
    ensures Select(s[..p] + [e] + s[p..], key, k)
         == Select(s[..p], key, k) + (if key(e) == k then [e] else []) + Select(s[p..], key, k)
  {
    assert s == s[..p] + s[p..];
    SelectAppend(s[..p], s[p..], key, k);
    SelectAppend(s[..p] + [e], s[p..], key, k);
    SelectAppend(s[..p], [e], key, k);
    assert Select([e], key, k) == (if key(e) == k then [e] else []) + Select([], key, k);
  }

  /** In an ordered list, an edge at distance `d` goes before every edge
      from its insertion index on. */
  lemma GoesBeforeRest(s: seq<nat>, key: nat -> Option<real>, d: real)
    requires Ordered(s, key)
    ensures forall i :: InsertPos(s, key, d) <= i < |s| ==> GoesBefore(d, key(s[i]))
  {
    var p := InsertPos(s, key, d);
    forall i | p <= i < |s| ensures GoesBefore(d, key(s[i])) {
      if i > p {
        assert KeyLe(key(s[p]), key(s[i]));
      }
    }
  }

  /** Inserting an edge into an ordered list puts it after every edge with
      the same key and moves no other edge relative to those. */
  lemma {:induction false} InsertSelect(s: seq<nat>, key: nat -> Option<real>, e: nat, k: Option<real>)
    requires Ordered(s, key)
    ensures Select(Insert(s, key, e), key, k) == Select(s, key, k) + (if key(e) == k then [e] else [])
  {
    match key(e)
    case None =>
      SelectAppend(s, [e], key, k);
      assert Select([e], key, k) == (if key(e) == k then [e] else []) + Select([], key, k);
    case Some(d) =>
      var p := InsertPos(s, key, d);
      SelectSplit(s, key, e, k, p);
      if key(e) == k {
        GoesBeforeRest(s, key, d);
        SelectNone(s[p..], key, d);
      }
  }

  /** The sort is stable: edges with equal keys, and the edges without a
      key, keep their incidence order. */
  lemma {:induction false} SortStable(s: seq<nat>, key: nat -> Option<real>, k: Option<real>)
    ensures Select(Sort(s, key), key, k) == Select(s, key, k)
  {
    if s != [] {
      var pre, e := s[..|s| - 1], s[|s| - 1];
      SortStable(pre, key, k);
      SortOrdered(pre, key);
      InsertSelect(Sort(pre, key), key, e, k);
      assert s == pre + [e];
      SelectAppend(pre, [e], key, k);
      assert Select([e], key, k) == (if key(e) == k then [e] else []) + Select([], key, k);
    }
  }
}
