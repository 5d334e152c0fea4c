/** The open set of `aStar`: before every pop the source sorts it with a
    comparator on `f`, ties broken by `g`, and shifts off the first node.
    The sort is modelled by a stable insertion sort; what matters about it
    is that the result is ordered by the comparator and is a permutation. */
module OpenSet {
  import opened Grid

  /** A node's sort key: its `f` score, then its `g` score. */
  type Key = (Dist, Dist)

  function KeyOf(n: Node): Key {
    (n.f, n.g)
  }

  /** The comparator of lines 30-33 as written: the difference of the `g`
      scores when the `f` scores are equal, else the difference of the `f`
      scores. Every open node has been reached, so all four are numbers. */
  function Compare(a: Key, b: Key): (c: int)
    requires a.0.Finite? && a.1.Finite? && b.0.Finite? && b.1.Finite?
    ensures c == 0 <==> a == b
  {
    if a.0 == b.0 then a.1.n - b.1.n else a.0.n - b.0.n
  }

  /** `a` may come before `b` in the sorted open set: its `f` is smaller, or
      its `f` is equal and its `g` is not larger. On reached nodes this is
      exactly the comparator answering zero or less. */
  predicate KeyLe(a: Key, b: Key): (r: bool)
    ensures a.0.Finite? && a.1.Finite? && b.0.Finite? && b.1.Finite? ==> (r <==> Compare(a, b) <= 0)
  {
    a.0.Less(b.0) || (a.0 == b.0 && !b.1.Less(a.1))
  }

  /** The comparator orders all keys, and consistently. */
  lemma KeyLeIsTotalPreorder(a: Key, b: Key, c: Key)
    ensures KeyLe(a, b) || KeyLe(b, a)
    ensures KeyLe(a, b) && KeyLe(b, c) ==> KeyLe(a, c)
  {
  }

  ghost predicate Keyed(keys: map<Pos, Key>, s: seq<Pos>) {
    forall p :: p in s ==> p in keys
  }

  ghost predicate SortedBy(keys: map<Pos, Key>, s: seq<Pos>)
    requires Keyed(keys, s)
  {
    forall i, j :: 0 <= i < j < |s| ==> KeyLe(keys[s[i]], keys[s[j]])
  }

  /** Puts `x` after every element of the sorted `s` whose key is not
      larger than its own. */
  function Insert(keys: map<Pos, Key>, x: Pos, s: seq<Pos>): (r: seq<Pos>)
    requires x in keys && Keyed(keys, s) && SortedBy(keys, s)
    ensures Keyed(keys, r) && SortedBy(keys, r)
    ensures multiset(r) == multiset(s) + multiset{x}
    decreases |s|
  {
    if s == [] || KeyLe(keys[s[|s| - 1]], keys[x]) then
      AppendSorted(keys, s, x);
      s + [x]
    else
      var r' := Insert(keys, x, s[..|s| - 1]);
      InsertBelow(keys, s, x, r');
      r' + [s[|s| - 1]]
  }

  /** `x` may follow a sorted list whose last key is not larger than its own. */
  lemma AppendSorted(keys: map<Pos, Key>, s: seq<Pos>, x: Pos)
    requires x in keys && Keyed(keys, s) && SortedBy(keys, s)
    requires s == [] || KeyLe(keys[s[|s| - 1]], keys[x])
    ensures Keyed(keys, s + [x]) && SortedBy(keys, s + [x])
  {
    forall i | 0 <= i < |s| ensures KeyLe(keys[s[i]], keys[x]) {
      KeyLeIsTotalPreorder(keys[s[i]], keys[s[|s| - 1]], keys[x]);
    }
  }

  /** The last element of `s`, whose key is larger than that of `x`, may
      follow `x` inserted into the rest of `s`. */
  lemma InsertBelow(keys: map<Pos, Key>, s: seq<Pos>, x: Pos, r': seq<Pos>)
    requires x in keys && Keyed(keys, s) && SortedBy(keys, s) && s != []
    requires !KeyLe(keys[s[|s| - 1]], keys[x])
    requires Keyed(keys, r') && SortedBy(keys, r')
    requires multiset(r') == multiset(s[..|s| - 1]) + multiset{x}
    ensures Keyed(keys, r' + [s[|s| - 1]]) && SortedBy(keys, r' + [s[|s| - 1]])
    ensures multiset(r' + [s[|s| - 1]]) == multiset(s) + multiset{x}
  {
    var front, last := s[..|s| - 1], s[|s| - 1];
    assert s == front + [last];
    forall y | y in r' ensures KeyLe(keys[y], keys[last]) {
      assert y in multiset(r');
      if y != x {
        assert y in front;
      } else {
        KeyLeIsTotalPreorder(keys[last], keys[x], keys[x]);
      }
    }
  }

  /** `openSet.sort(...)`: a stable sort by the comparator. */
  function SortOpen(keys: map<Pos, Key>, s: seq<Pos>): (r: seq<Pos>)
    requires Keyed(keys, s)
    ensures Keyed(keys, r) && SortedBy(keys, r)
    ensures multiset(r) == multiset(s)
    decreases |s|
  {
    if s == [] then []
    else
      assert s == s[..|s| - 1] + [s[|s| - 1]];
      Insert(keys, s[|s| - 1], SortOpen(keys, s[..|s| - 1]))
  }

  /** A list has no repeated element exactly when its multiset counts each at most once. */
  lemma {:induction false} NoDupCounts<T>(s: seq<T>)
    ensures NoDup(s) <==> forall x :: multiset(s)[x] <= 1
  {
    if s != [] {
      var t := s[1..];
      NoDupCounts(t);
      assert s == [s[0]] + t;
      assert multiset(s) == multiset{s[0]} + multiset(t);
      if NoDup(s) {
        assert NoDup(t) by {
          forall i, j | 0 <= i < j < |t| ensures t[i] != t[j] {
            assert t[i] == s[i + 1] && t[j] == s[j + 1];
          }
        }
        forall j | 0 <= j < |t| ensures t[j] != s[0] {
          assert t[j] == s[j + 1];
        }
      } else {
        var i, j :| 0 <= i < j < |s| && s[i] == s[j];
        if i == 0 {
          assert t[j - 1] == s[0];
          assert s[0] in t;
          assert multiset(s)[s[0]] >= 2;
        } else {
          assert t[i - 1] == t[j - 1];
          assert !NoDup(t);
          var x :| multiset(t)[x] > 1;
          assert multiset(s)[x] > 1;
        }
      }
    }
  }

  /** Reordering a list keeps it free of repetitions. */
  lemma PermutationNoDup<T>(a: seq<T>, b: seq<T>)
    requires multiset(a) == multiset(b) && NoDup(a)
    ensures NoDup(b)
  {
    NoDupCounts(a);
    NoDupCounts(b);
  }

  /** The key of the record at `p`. */
  function KeyAt(grid: array2<Node>, p: Pos): Key
    requires InBounds(p, grid.Length0, grid.Length1)
    reads grid
  {
    KeyOf(grid[p.row, p.col])
  }

  /** The first element of a sorted list has the least key. */
  lemma SortedHeadLeast(keys: map<Pos, Key>, s: seq<Pos>)
    requires |s| > 0 && Keyed(keys, s) && SortedBy(keys, s)
    ensures forall q :: q in s ==> KeyLe(keys[s[0]], keys[q])
  {
    forall q | q in s ensures KeyLe(keys[s[0]], keys[q]) {
      var j :| 0 <= j < |s| && s[j] == q;
      if j == 0 {
        KeyLeIsTotalPreorder(keys[q], keys[q], keys[q]);
      }
    }
  }

  /** Shifting the first element off a reordering of `open`. */
  lemma ShiftFacts(open: seq<Pos>, sorted: seq<Pos>)
    requires |sorted| > 0 && multiset(sorted) == multiset(open)
    ensures multiset(open) == multiset{sorted[0]} + multiset(sorted[1..])
    ensures sorted[0] in open && forall p :: p in sorted[1..] ==> p in open
    ensures NoDup(open) ==> NoDup(sorted[1..]) && sorted[0] !in sorted[1..]
  {
    assert sorted == [sorted[0]] + sorted[1..];
    assert sorted[0] in multiset(open);
    forall p | p in sorted[1..] ensures p in open {
      assert p in multiset(sorted);
    }
    if NoDup(open) {
      PermutationNoDup(open, sorted);
    }
  }

  /** Lines 30-35 of astar.js: sort the open set by `(f, g)` and shift off
      its first node, which has the least key of all the open nodes. */
  method PopBest(grid: array2<Node>, open: seq<Pos>) returns (current: Pos, rest: seq<Pos>)
    requires open != []
    requires forall p :: p in open ==> InBounds(p, grid.Length0, grid.Length1)
    ensures multiset(open) == multiset{current} + multiset(rest)
    ensures current in open && forall p :: p in rest ==> p in open
    ensures forall q :: q in open ==> KeyLe(KeyAt(grid, current), KeyAt(grid, q))
    ensures NoDup(open) ==> NoDup(rest) && current !in rest
  {
    var keys := map p | p in open :: KeyAt(grid, p);
    var sorted := SortOpen(keys, open);
    SortedHeadLeast(keys, sorted);
    ShiftFacts(open, sorted);
    current := sorted[0];
    rest := sorted[1..];
    forall q | q in open ensures KeyLe(KeyAt(grid, current), KeyAt(grid, q)) {
      assert q in multiset(sorted);
    }
  }
}
