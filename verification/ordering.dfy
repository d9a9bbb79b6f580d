/** The order of the listing. The array is sorted by a comparator that puts
    directories before files and, between entries of the same kind, orders
    the names under String.compareTo; entries the comparator calls equal
    keep their input order, since the library sort of object arrays is
    stable. */
module Ordering {
  import opened Text
  import opened Files

  /** The comparator: directories before files, then compareTo on the names
      of two entries of the same kind. */
  function CompareEntries(a: Entry, b: Entry): (r: int)
    ensures a.isDirectory && !b.isDirectory ==> r < 0
    ensures !a.isDirectory && b.isDirectory ==> r > 0
    ensures a.isDirectory == b.isDirectory ==> r == CompareNames(a.name, b.name)
  {
    if a.isDirectory != b.isDirectory then (if a.isDirectory then -1 else 1)
    else CompareNames(a.name, b.name)
  }

  /** The two entries agree on everything the comparator looks at. */
  predicate SameKey(a: Entry, b: Entry)
  {
    a.isDirectory == b.isDirectory && a.name == b.name
  }

  /** `a` sorts strictly before `b`. */
  predicate Before(a: Entry, b: Entry)
  {
    CompareEntries(a, b) < 0
  }

  lemma CompareEntriesAntisymmetric(a: Entry, b: Entry)
    ensures CompareEntries(b, a) == -CompareEntries(a, b)
  {
    CompareNamesAntisymmetric(a.name, b.name);
  }

  lemma CompareEntriesTransitive(a: Entry, b: Entry, c: Entry)
    requires CompareEntries(a, b) <= 0 && CompareEntries(b, c) <= 0
    ensures CompareEntries(a, c) <= 0
  {
    if a.isDirectory == b.isDirectory == c.isDirectory {
      CompareNamesTransitive(a.name, b.name, c.name);
    }
  }

  /** Every entry is at most every later entry under the comparator. */
  predicate Sorted(s: seq<Entry>)
  {
    forall i, j :: 0 <= i < j < |s| ==> CompareEntries(s[i], s[j]) <= 0
  }

  /** Sorted means: every directory precedes every file, and within each of
      the two groups the names do not decrease under compareTo. */
  lemma SortedMeans(s: seq<Entry>)
    ensures Sorted(s) <==>
      (forall i, j :: 0 <= i < j < |s| && s[j].isDirectory ==> s[i].isDirectory) &&
      (forall i, j :: 0 <= i < j < |s| && s[i].isDirectory == s[j].isDirectory ==>
         CompareNames(s[i].name, s[j].name) <= 0)
  {
  }

  // ---------------------------------------------------------------------
  // The sort as a function: a stable insertion sort

  /** Inserts `x` into `t` after every entry that `x` does not sort before,
      scanning from the end as an insertion sort shifts. */
  function Insert(t: seq<Entry>, x: Entry): seq<Entry>
  {
    if |t| == 0 || !Before(x, t[|t| - 1]) then t + [x]
    else Insert(t[..|t| - 1], x) + [t[|t| - 1]]
  }

  /** Insert adds `x` and keeps everything else. */
  lemma {:induction false} InsertPermutation(t: seq<Entry>, x: Entry)
    ensures multiset(Insert(t, x)) == multiset(t) + multiset{x}
  {
    if |t| != 0 && Before(x, t[|t| - 1]) {
      InsertPermutation(t[..|t| - 1], x);
      assert t == t[..|t| - 1] + [t[|t| - 1]];
    }
  }

  /** The listing order: each entry in turn inserted into the sorted prefix. */
  function Sort(s: seq<Entry>): (r: seq<Entry>)
    ensures Sorted(r)
    ensures multiset(r) == multiset(s)
  {
    if |s| == 0 then []
    else
      var t, x := Sort(s[..|s| - 1]), s[|s| - 1];
      InsertSorted(t, x);
      InsertPermutation(t, x);
      assert s == s[..|s| - 1] + [x];
      Insert(t, x)
  }

  lemma {:induction false} InsertSorted(t: seq<Entry>, x: Entry)
    requires Sorted(t)
    ensures Sorted(Insert(t, x))
  {
    var r := Insert(t, x);
    if |t| == 0 {
    } else if !Before(x, t[|t| - 1]) {
      var l := t[|t| - 1];
      CompareEntriesAntisymmetric(x, l);
      forall i, j | 0 <= i < j < |r| ensures CompareEntries(r[i], r[j]) <= 0 {
        if j == |t| && i < |t| - 1 {
          CompareEntriesTransitive(t[i], l, x);
        }
      }
    } else {
      var t', l := t[..|t| - 1], t[|t| - 1];
      InsertSorted(t', x);
      InsertPermutation(t', x);
      var r' := Insert(t', x);
      forall i, j | 0 <= i < j < |r| ensures CompareEntries(r[i], r[j]) <= 0 {
        if j == |r'| {
          var y := r'[i];
          assert y in multiset(r');
          if y != x {
            assert y in multiset(t');
            var k :| 0 <= k < |t'| && t'[k] == y;
            assert t[k] == y;
          }
        }
      }
    }
  }

  // ---------------------------------------------------------------------
  // Stability

  /** The entries of `s` with the key of `k`, in their order in `s`. */
  function WithKey(s: seq<Entry>, k: Entry): seq<Entry>
  {
    if |s| == 0 then []
    else WithKey(s[..|s| - 1], k) + (if SameKey(s[|s| - 1], k) then [s[|s| - 1]] else [])
  }

  lemma {:induction false} WithKeyMembership(s: seq<Entry>, k: Entry, e: Entry)
    ensures e in WithKey(s, k) <==> e in s && SameKey(e, k)
  {
    if |s| != 0 {
      WithKeyMembership(s[..|s| - 1], k, e);
      assert s == s[..|s| - 1] + [s[|s| - 1]];
    }
  }

  lemma WithKeySnoc(s: seq<Entry>, e: Entry, k: Entry)
    ensures WithKey(s + [e], k) == WithKey(s, k) + (if SameKey(e, k) then [e] else [])
  {
    assert (s + [e])[..|s|] == s;
  }

  lemma {:induction false} InsertWithKey(t: seq<Entry>, x: Entry, k: Entry)
    ensures WithKey(Insert(t, x), k) == WithKey(t, k) + (if SameKey(x, k) then [x] else [])
  {
    if |t| == 0 || !Before(x, t[|t| - 1]) {
      WithKeySnoc(t, x, k);
    } else {
      var t', l := t[..|t| - 1], t[|t| - 1];
      var r' := Insert(t', x);
      var xs: seq<Entry> := if SameKey(x, k) then [x] else [];
      var ls: seq<Entry> := if SameKey(l, k) then [l] else [];
      assert xs + ls == ls + xs by {
        if SameKey(x, k) && SameKey(l, k) {
        }
      }
      assert t == t' + [l];
      assert Insert(t, x) == r' + [l];
      calc {
        WithKey(Insert(t, x), k);
        WithKey(r' + [l], k);
        { WithKeySnoc(r', l, k); }
        WithKey(r', k) + ls;
        { InsertWithKey(t', x, k); }
        WithKey(t', k) + xs + ls;
        WithKey(t', k) + (xs + ls);
        WithKey(t', k) + (ls + xs);
        WithKey(t', k) + ls + xs;
        { WithKeySnoc(t', l, k); }
        WithKey(t, k) + xs;
      }
    }
  }

  /** Entries with equal keys leave Sort in the order they entered it. */
  lemma {:induction false} SortStable(s: seq<Entry>, k: Entry)
    ensures WithKey(Sort(s), k) == WithKey(s, k)
  {
    if |s| != 0 {
      SortStable(s[..|s| - 1], k);
      InsertWithKey(Sort(s[..|s| - 1]), s[|s| - 1], k);
    }
  }

  /** Two sorted sequences that hold the same entries of every key, in the
      same order, are equal. */
  lemma {:induction false} SortedUnique(r1: seq<Entry>, r2: seq<Entry>)
    requires Sorted(r1) && Sorted(r2)
    requires forall k :: WithKey(r1, k) == WithKey(r2, k)
    ensures r1 == r2
    decreases |r1| + |r2|
  {
    if |r1| == 0 && |r2| != 0 {
      WithKeyMembership(r2, r2[0], r2[0]);
      WithKeyMembership(r1, r2[0], r2[0]);
    } else if |r1| != 0 && |r2| == 0 {
      WithKeyMembership(r1, r1[0], r1[0]);
      WithKeyMembership(r2, r1[0], r1[0]);
    } else if |r1| != 0 {
      var a := r1[|r1| - 1];
      var r1', r2' := r1[..|r1| - 1], r2[..|r2| - 1];
      SortedLastEqual(r1, r2);
      forall k ensures WithKey(r1', k) == WithKey(r2', k) {
        assert r1 == r1' + [a] && r2 == r2' + [a];
        WithKeySnoc(r1', a, k);
        WithKeySnoc(r2', a, k);
        CancelSuffix(WithKey(r1', k), WithKey(r2', k), if SameKey(a, k) then [a] else []);
      }
      SortedPrefix(r1);
      SortedPrefix(r2);
      SortedUnique(r1', r2');
      assert r1 == r1' + [a] && r2 == r2' + [a];
    }
  }

  lemma CancelSuffix(x: seq<Entry>, y: seq<Entry>, z: seq<Entry>)
    requires x + z == y + z
    ensures x == y
  {
    assert x == (x + z)[..|x|];
    assert y == (y + z)[..|y|];
  }

  /** The last entry of a sorted sequence is at least every entry in it. */
  lemma SortedLastIsGreatest(r: seq<Entry>, y: Entry)
    requires Sorted(r) && y in r
    ensures CompareEntries(y, r[|r| - 1]) <= 0
  {
    var p :| 0 <= p < |r| && r[p] == y;
    if p == |r| - 1 {
    }
  }

  /** The last entries of two such sequences have the same key: each is at
      least the other. */
  lemma SortedLastSameKey(r1: seq<Entry>, r2: seq<Entry>)
    requires Sorted(r1) && Sorted(r2) && |r1| != 0 && |r2| != 0
    requires forall k :: WithKey(r1, k) == WithKey(r2, k)
    ensures SameKey(r2[|r2| - 1], r1[|r1| - 1])
  {
    var a, b := r1[|r1| - 1], r2[|r2| - 1];
    assert a in r2 by {
      WithKeyMembership(r1, a, a);
      assert WithKey(r1, a) == WithKey(r2, a);
      WithKeyMembership(r2, a, a);
    }
    assert b in r1 by {
      WithKeyMembership(r2, b, b);
      assert WithKey(r1, b) == WithKey(r2, b);
      WithKeyMembership(r1, b, b);
    }
    SortedLastIsGreatest(r2, a);
    SortedLastIsGreatest(r1, b);
    CompareEntriesAntisymmetric(a, b);
  }

  /** The last entries of two such sequences agree: each is the last entry of
      its own key in both. */
  lemma SortedLastEqual(r1: seq<Entry>, r2: seq<Entry>)
    requires Sorted(r1) && Sorted(r2) && |r1| != 0 && |r2| != 0
    requires forall k :: WithKey(r1, k) == WithKey(r2, k)
    ensures r1[|r1| - 1] == r2[|r2| - 1]
  {
    var a, b := r1[|r1| - 1], r2[|r2| - 1];
    SortedLastSameKey(r1, r2);
    var w1, w2 := WithKey(r1, a), WithKey(r2, a);
    assert w1 == w2;
    assert w1 == WithKey(r1[..|r1| - 1], a) + [a];
    assert w2 == WithKey(r2[..|r2| - 1], a) + [b];
    assert w1[|w1| - 1] == a && w2[|w2| - 1] == b;
  }

  /** Sort is the only stable sort: any sorted rearrangement of `s` that keeps
      the input order among entries with equal keys is Sort(s). So the
      result does not depend on which stable algorithm the library runs. */
  lemma SortIsTheStableSort(s: seq<Entry>, r: seq<Entry>)
    requires Sorted(r)
    requires forall k :: WithKey(r, k) == WithKey(s, k)
    ensures r == Sort(s)
  {
    forall k ensures WithKey(r, k) == WithKey(Sort(s), k) {
      SortStable(s, k);
    }
    SortedUnique(r, Sort(s));
  }

  /** Sorting an already sorted listing changes nothing, so sorting twice is
      sorting once. */
  lemma SortOfSorted(s: seq<Entry>)
    requires Sorted(s)
    ensures Sort(s) == s
  {
    SortIsTheStableSort(s, s);
  }

  lemma SortedPrefix(s: seq<Entry>)
    requires Sorted(s) && |s| != 0
    ensures Sorted(s[..|s| - 1])
  {
  }

  lemma SortIdempotent(s: seq<Entry>)
    ensures Sort(Sort(s)) == Sort(s)
  {
    SortOfSorted(Sort(s));
  }

  // ---------------------------------------------------------------------
  // The sort in place

  /** Where `x` lands: after `t[..j]`, when it does not sort before
      `t[j - 1]` but sorts before every entry from `j` on. */
  lemma {:induction false} InsertAt(t: seq<Entry>, x: Entry, j: nat)
    requires j <= |t|
    requires j == 0 || !Before(x, t[j - 1])
    requires forall k :: j <= k < |t| ==> Before(x, t[k])
    ensures Insert(t, x) == t[..j] + [x] + t[j..]
    decreases |t|
  {
    if |t| == j {
      assert t[..j] == t && t[j..] == [];
    } else {
      var t', l := t[..|t| - 1], t[|t| - 1];
      assert t'[..j] == t[..j];
      assert t'[j..] + [l] == t[j..];
      calc {
        Insert(t, x);
        { assert Before(x, l); }
        Insert(t', x) + [l];
        { InsertAt(t', x, j); }
        t'[..j] + [x] + t'[j..] + [l];
        t'[..j] + [x] + (t'[j..] + [l]);
        t[..j] + [x] + t[j..];
      }
    }
  }

  lemma SortStep(s: seq<Entry>, i: nat)
    requires i < |s|
    ensures Sort(s[..i + 1]) == Insert(Sort(s[..i]), s[i])
  {
    assert s[..i + 1][..i] == s[..i];
  }

  /** One pass of the insertion sort: `a[i]` moves left past every entry of
      `a[..i]` that it sorts before. */
  method InsertInPlace(a: array<Entry>, i: nat)
    requires i < a.Length
    modifies a
    ensures a[..i + 1] == Insert(old(a[..i]), old(a[i]))
    ensures forall k :: i < k < a.Length ==> a[k] == old(a[k])
  {
    var x := a[i];
    ghost var t := a[..i];
    var j := i;
    while j > 0 && Before(x, a[j - 1])
      invariant 0 <= j <= i
      invariant forall k :: 0 <= k < j ==> a[k] == t[k]
      invariant forall k :: j < k <= i ==> a[k] == t[k - 1]
      invariant forall k :: i < k < a.Length ==> a[k] == old(a[k])
      invariant forall k :: j <= k < i ==> Before(x, t[k])
    {
      a[j] := a[j - 1];
      j := j - 1;
    }
    InsertAt(t, x, j);
    a[j] := x;
    Shifted(t, x, j, a[..i + 1]);
  }

  /** The sequence the shifting pass leaves: `t` with `x` put in at `j`. */
  lemma Shifted(t: seq<Entry>, x: Entry, j: nat, r: seq<Entry>)
    requires j <= |t| && |r| == |t| + 1
    requires forall k :: 0 <= k < j ==> r[k] == t[k]
    requires r[j] == x
    requires forall k :: j < k < |r| ==> r[k] == t[k - 1]
    ensures r == t[..j] + [x] + t[j..]
  {
    ghost var u := t[..j] + [x] + t[j..];
    forall k | 0 <= k < |r| ensures r[k] == u[k] {
      if k > j {
        assert u[k] == t[j..][k - j - 1];
      }
    }
  }

  /** The library sort, with the comparator above, on the array `setup` holds. */
  method SortInPlace(a: array<Entry>)
    modifies a
    ensures a[..] == Sort(old(a[..]))
  {
    ghost var orig := a[..];
    var i := 0;
    while i < a.Length
      invariant 0 <= i <= a.Length
      invariant a[..i] == Sort(orig[..i])
      invariant forall k :: i <= k < a.Length ==> a[k] == orig[k]
    {
      InsertInPlace(a, i);
      SortStep(orig, i);
      i := i + 1;
    }
    assert orig[..a.Length] == orig;
  }
}
