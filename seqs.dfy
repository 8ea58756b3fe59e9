/** Sequence helpers standing for Python list operations: a comprehension with an
    `if` (Filter), `list.remove` (RemoveFirst), and duplicate-freedom. */
module Seqs {

  /** No element occurs twice. */
  ghost predicate Distinct<T>(s: seq<T>) {
    forall i, j | 0 <= i < j < |s| :: s[i] != s[j]
  }

  /** The elements of `s`, as a set. */
  ghost function Elems<T>(s: seq<T>): set<T> {
    set x | x in s
  }

  /** `[x for x in s if keep(x)]`: the order-preserving sublist of the kept elements. */
  function Filter<T>(s: seq<T>, keep: T -> bool): (r: seq<T>)
    ensures |r| <= |s|
    ensures forall x | x in r :: x in s && keep(x)
    ensures forall x | x in s && keep(x) :: x in r
  {
    if s == [] then []
    else
      var rest := Filter(s[..|s| - 1], keep);
      assert s == s[..|s| - 1] + [s[|s| - 1]];
      if keep(s[|s| - 1]) then rest + [s[|s| - 1]] else rest
  }

  lemma {:induction false} FilterConcat<T>(a: seq<T>, b: seq<T>, keep: T -> bool)
    ensures Filter(a + b, keep) == Filter(a, keep) + Filter(b, keep)
    decreases |b|
  {
    if b == [] {
      assert a + b == a;
    } else {
      var b' := b[..|b| - 1];
      assert (a + b)[..|a + b| - 1] == a + b';
      FilterConcat(a, b', keep);
    }
  }

  /** Filtering keeps a duplicate-free list duplicate-free. */
  lemma {:induction false} FilterDistinct<T>(s: seq<T>, keep: T -> bool)
    requires Distinct(s)
    ensures Distinct(Filter(s, keep))
    decreases |s|
  {
    if s != [] {
      var s' := s[..|s| - 1];
      assert Distinct(s');
      FilterDistinct(s', keep);
      assert s[|s| - 1] !in s';
    }
  }

  /** Two filters that agree on every element of `s` give the same list. */
  lemma {:induction false} FilterCongruent<T>(s: seq<T>, f: T -> bool, g: T -> bool)
    requires forall x | x in s :: f(x) == g(x)
    ensures Filter(s, f) == Filter(s, g)
    decreases |s|
  {
    if s != [] {
      assert forall x | x in s[..|s| - 1] :: x in s;
      FilterCongruent(s[..|s| - 1], f, g);
    }
  }

  /** When every element is kept, the list is returned as it is. */
  lemma {:induction false} FilterAll<T>(s: seq<T>, keep: T -> bool)
    requires forall x | x in s :: keep(x)
    ensures Filter(s, keep) == s
    decreases |s|
  {
    if s != [] {
      assert forall x | x in s[..|s| - 1] :: x in s;
      FilterAll(s[..|s| - 1], keep);
    }
  }

  lemma Associative<T>(a: seq<T>, b: seq<T>, c: seq<T>)
    ensures (a + b) + c == a + (b + c)
  {
  }

  /** Filtering twice is filtering once by both tests. */
  lemma {:induction false} FilterFilter<T>(s: seq<T>, f: T -> bool, g: T -> bool)
    ensures Filter(Filter(s, f), g) == Filter(s, x => f(x) && g(x))
    decreases |s|
  {
    if s != [] {
      var init := s[..|s| - 1];
      FilterFilter(init, f, g);
      var last := s[|s| - 1];
      if f(last) {
        FilterConcat(Filter(init, f), [last], g);
        assert [last][..0] == [];
      }
    }
  }

  /** Nothing passes a test no element meets. */
  lemma FilterNone<T>(s: seq<T>, keep: T -> bool)
    requires forall x | x in s :: !keep(x)
    ensures Filter(s, keep) == []
  {
    var r := Filter(s, keep);
    assert forall i | 0 <= i < |r| :: r[i] in r;
  }

  /** The order-preserving sublist of the elements not in `drop`. */
  function Without<T>(s: seq<T>, drop: set<T>): (r: seq<T>)
    ensures forall x | x in r :: x in s && x !in drop
    ensures forall x | x in s && x !in drop :: x in r
    decreases |s|
  {
    if s == [] then []
    else
      var rest := Without(s[..|s| - 1], drop);
      assert s == s[..|s| - 1] + [s[|s| - 1]];
      if s[|s| - 1] in drop then rest else rest + [s[|s| - 1]]
  }

  lemma {:induction false} WithoutNothing<T>(s: seq<T>)
    ensures Without(s, {}) == s
    decreases |s|
  {
    if s != [] {
      WithoutNothing(s[..|s| - 1]);
      assert s == s[..|s| - 1] + [s[|s| - 1]];
    }
  }

  /** Dropping in two rounds is dropping both sets at once. */
  lemma {:induction false} WithoutWithout<T>(s: seq<T>, a: set<T>, b: set<T>)
    ensures Without(Without(s, a), b) == Without(s, a + b)
    decreases |s|
  {
    if s != [] {
      var init := s[..|s| - 1];
      WithoutWithout(init, a, b);
      var last := s[|s| - 1];
      if last !in a {
        var w := Without(init, a);
        assert (w + [last])[..|w + [last]| - 1] == w;
      }
    }
  }

  lemma {:induction false} WithoutDistinct<T>(s: seq<T>, drop: set<T>)
    requires Distinct(s)
    ensures Distinct(Without(s, drop))
    decreases |s|
  {
    if s != [] {
      var init := s[..|s| - 1];
      assert Distinct(init);
      WithoutDistinct(init, drop);
      var last := s[|s| - 1];
      if last !in drop {
        assert last !in init;
        var w := Without(init, drop);
        assert last !in w;
        var r := w + [last];
        forall i, j | 0 <= i < j < |r| ensures r[i] != r[j] {
          if j == |r| - 1 { assert r[i] in w; }
        }
      }
    }
  }

  /** What a list holds, every list it is a prefix of holds. */
  lemma PrefixKeeps<T>(a: seq<T>, b: seq<T>, x: T)
    requires a <= b && x in a
    ensures x in b
  {
    var i :| 0 <= i < |a| && a[i] == x;
    assert b[i] == x;
  }

  /** `a` is `b` with some elements left out, the rest in their order. */
  predicate Sublist<T(==)>(a: seq<T>, b: seq<T>)
    decreases |b|
  {
    if b == [] then a == []
    else
      || Sublist(a, b[..|b| - 1])
      || (a != [] && a[|a| - 1] == b[|b| - 1] && Sublist(a[..|a| - 1], b[..|b| - 1]))
  }

  /** `list.remove(x)` on a list that may lack `x` (the callers check membership first):
      drops the first occurrence of `x`. */
  function RemoveFirst<T(==)>(s: seq<T>, x: T): (r: seq<T>)
    ensures x !in s ==> r == s
    ensures x in s ==> |r| == |s| - 1
  {
    if s == [] then []
    else if s[0] == x then
      assert s == [s[0]] + s[1..];
      s[1..]
    else
      assert s == [s[0]] + s[1..];
      [s[0]] + RemoveFirst(s[1..], x)
  }

  /** `r` is `s` without the first occurrence of `x`, every other entry in its order. */
  ghost predicate DropsFirst<T>(s: seq<T>, x: T, r: seq<T>) {
    exists i | 0 <= i < |s| :: s[i] == x && x !in s[..i] && r == s[..i] + s[i + 1..]
  }

  /** The index of the first occurrence of `x`. */
  ghost function FirstIndex<T>(s: seq<T>, x: T): (i: nat)
    requires x in s
    ensures i < |s| && s[i] == x && x !in s[..i]
    decreases |s|
  {
    if s[0] == x then 0
    else
      var j := FirstIndex(s[1..], x);
      assert s[..j + 1] == [s[0]] + s[1..][..j];
      j + 1
  }

  /** What `list.remove(x)` removes: the first occurrence of `x`, every other entry
      staying where it was. */
  lemma RemoveFirstAt<T>(s: seq<T>, x: T)
    ensures x in s ==> exists i | 0 <= i < |s| ::
              s[i] == x && x !in s[..i] && RemoveFirst(s, x) == s[..i] + s[i + 1..]
  {
    if x in s {
      var i := FirstIndex(s, x);
      var rest := s[i..];
      assert s == s[..i] + rest;
      RemoveFirstSkipsPrefix(s[..i], rest, x);
      assert rest == [x] + s[i + 1..];
      assert RemoveFirst(s, x) == s[..i] + s[i + 1..];
    }
  }

  lemma FilterCons<T>(h: T, t: seq<T>, keep: T -> bool)
    ensures Filter([h] + t, keep) == (if keep(h) then [h] else []) + Filter(t, keep)
  {
    FilterConcat([h], t, keep);
    assert [h][..0] == [];
  }

  /** The first occurrence lies in the suffix when the prefix lacks `x`. */
  lemma {:induction false} RemoveFirstSkipsPrefix<T>(a: seq<T>, b: seq<T>, x: T)
    requires x !in a
    ensures RemoveFirst(a + b, x) == a + RemoveFirst(b, x)
    decreases |a|
  {
    if a == [] {
      assert a + b == b;
    } else {
      var t := a[1..];
      assert a + b == [a[0]] + (t + b);
      RemoveFirstSkipsPrefix(t, b, x);
      assert a == [a[0]] + t;
    }
  }

  /** On a duplicate-free list, removing `x` removes every occurrence of `x`. */
  lemma {:induction false} RemoveFirstOfDistinct<T>(s: seq<T>, x: T)
    requires Distinct(s)
    ensures RemoveFirst(s, x) == Filter(s, y => y != x)
    ensures Distinct(RemoveFirst(s, x))
    decreases |s|
  {
    if s != [] {
      var t := s[1..];
      assert s == [s[0]] + t;
      assert Distinct(t);
      FilterCons(s[0], t, y => y != x);
      if s[0] == x {
        assert x !in t;
        FilterAll(t, y => y != x);
      } else {
        RemoveFirstOfDistinct(t, x);
        assert s[0] !in RemoveFirst(t, x);
      }
    }
  }
}
