/**
 * List operations the application builds from JavaScript arrays and sets:
 * `[...new Set(xs)]`, `xs.filter(p)`, `xs.slice(0, n)`, and the stable
 * `Array.prototype.sort` with a comparator.
 */
module Seqs {

  /** A comparator `(a, b) => ...` read as "a may come before b": total and transitive. */
  ghost predicate TotalPreorder<T(!new)>(le: (T, T) -> bool) {
    (forall a, b :: le(a, b) || le(b, a)) &&
    (forall a, b, c :: le(a, b) && le(b, c) ==> le(a, c))
  }

  predicate Sorted<T>(s: seq<T>, le: (T, T) -> bool) {
    forall i, j :: 0 <= i < j < |s| ==> le(s[i], s[j])
  }

  /**
   * Places `x` after every leading element that may precede it. Inserting the
   * later element after its equals is what keeps the sort stable.
   */
  function Insert<T>(x: T, s: seq<T>, le: (T, T) -> bool): (r: seq<T>)
    ensures multiset(r) == multiset(s) + multiset{x}
    ensures |r| == |s| + 1
  {
    if s == [] then [x]
    else if le(s[0], x) then
      assert s == [s[0]] + s[1..];
      [s[0]] + Insert(x, s[1..], le)
    else [x] + s
  }

  /**
   * `xs.slice().sort(cmp)` for the stable sort ECMAScript requires, as an
   * insertion sort: the last element is inserted into the sorted prefix.
   */
  function SortBy<T>(s: seq<T>, le: (T, T) -> bool): (r: seq<T>)
    ensures multiset(r) == multiset(s)
    ensures |r| == |s|
  {
    if s == [] then []
    else
      assert s == s[..|s| - 1] + [s[|s| - 1]];
      Insert(s[|s| - 1], SortBy(s[..|s| - 1], le), le)
  }

  lemma {:induction false} InsertSorted<T(!new)>(x: T, s: seq<T>, le: (T, T) -> bool)
    requires TotalPreorder(le) && Sorted(s, le)
    ensures Sorted(Insert(x, s, le), le)
  {
    if s != [] && le(s[0], x) {
      var r := Insert(x, s[1..], le);
      assert Sorted(r, le) by {
        InsertSorted(x, s[1..], le);
      }
      HeadBound(x, s, le);
      forall j | 0 < j < |r| + 1
        ensures le(s[0], ([s[0]] + r)[j])
      {
        assert r[j - 1] in r;
      }
    } else if s != [] {
      forall j | 0 < j < |s| + 1
        ensures le(x, ([x] + s)[j])
      {
        assert le(x, s[0]);
      }
    }
  }

  /** The head of a sorted sequence may precede everything inserting `x` after it puts behind it. */
  lemma HeadBound<T(!new)>(x: T, s: seq<T>, le: (T, T) -> bool)
    requires s != [] && Sorted(s, le) && le(s[0], x)
    ensures forall y :: y in Insert(x, s[1..], le) ==> le(s[0], y)
  {
    var r := Insert(x, s[1..], le);
    forall y | y in r ensures le(s[0], y) {
      assert y in multiset(r);
      if y != x {
        assert y in multiset(s[1..]);
        var k :| 0 <= k < |s[1..]| && s[1..][k] == y;
        assert s[k + 1] == y;
      }
    }
  }

  /** The result of `SortBy` is in comparator order. */
  lemma {:induction false} SortBySorted<T(!new)>(s: seq<T>, le: (T, T) -> bool)
    requires TotalPreorder(le)
    ensures Sorted(SortBy(s, le), le)
  {
    if s != [] {
      SortBySorted(s[..|s| - 1], le);
      InsertSorted(s[|s| - 1], SortBy(s[..|s| - 1], le), le);
    }
  }

  /** An element every other element may precede goes at the end. */
  lemma {:induction false} InsertAtEnd<T>(x: T, s: seq<T>, le: (T, T) -> bool)
    requires forall i :: 0 <= i < |s| ==> le(s[i], x)
    ensures Insert(x, s, le) == s + [x]
  {
    if s != [] {
      assert le(s[0], x);
      InsertAtEnd(x, s[1..], le);
      assert [s[0]] + (s[1..] + [x]) == s + [x];
    }
  }

  /** Sorting an already sorted sequence leaves it as it is (the sort is stable). */
  lemma {:induction false} SortBySortedInput<T>(s: seq<T>, le: (T, T) -> bool)
    requires Sorted(s, le)
    ensures SortBy(s, le) == s
  {
    if s != [] {
      var p := s[..|s| - 1];
      SortBySortedInput(p, le);
      InsertAtEnd(s[|s| - 1], p, le);
      assert p + [s[|s| - 1]] == s;
    }
  }

  /** Inserting with two comparators that agree on the pairs it looks at gives one result. */
  lemma {:induction false} InsertAgree<T>(x: T, s: seq<T>, le1: (T, T) -> bool, le2: (T, T) -> bool)
    requires forall y :: y in s ==> le1(y, x) == le2(y, x)
    ensures Insert(x, s, le1) == Insert(x, s, le2)
  {
    if s != [] {
      InsertAgree(x, s[1..], le1, le2);
    }
  }

  /** Sorting with two comparators that agree on the elements sorted gives one result. */
  lemma {:induction false} SortByAgree<T>(s: seq<T>, le1: (T, T) -> bool, le2: (T, T) -> bool)
    requires forall a, b :: a in s && b in s ==> le1(a, b) == le2(a, b)
    ensures SortBy(s, le1) == SortBy(s, le2)
  {
    if s != [] {
      var p := s[..|s| - 1];
      assert forall y :: y in p ==> y in s;
      SortByAgree(p, le1, le2);
      var sp := SortBy(p, le1);
      forall y | y in sp ensures y in s {
        assert y in multiset(sp);
        assert y in multiset(p);
      }
      InsertAgree(s[|s| - 1], sp, le1, le2);
    }
  }

  /** Sorting keeps exactly the elements it was given. */
  lemma SortByMembers<T>(s: seq<T>, le: (T, T) -> bool)
    ensures forall x :: x in SortBy(s, le) <==> x in s
  {
    var r := SortBy(s, le);
    forall x ensures x in r <==> x in s {
      assert x in r <==> x in multiset(r);
      assert x in s <==> x in multiset(s);
    }
  }

  /** One value is in the sorted sequence iff it is in the input. */
  lemma SortByHas<T>(s: seq<T>, le: (T, T) -> bool, x: T)
    ensures x in SortBy(s, le) <==> x in s
  {
    var r := SortBy(s, le);
    assert x in r <==> x in multiset(r);
    assert x in s <==> x in multiset(s);
  }

  function Reverse<T>(s: seq<T>): (r: seq<T>)
    ensures |r| == |s|
    ensures forall i :: 0 <= i < |s| ==> r[i] == s[|s| - 1 - i]
  {
    if s == [] then [] else [s[|s| - 1]] + Reverse(s[..|s| - 1])
  }

  /** If no element may precede any later one, the stable sort reverses the sequence. */
  lemma {:induction false} SortByReverses<T>(s: seq<T>, le: (T, T) -> bool)
    requires forall i, j :: 0 <= i < j < |s| ==> !le(s[i], s[j])
    ensures SortBy(s, le) == Reverse(s)
  {
    if s != [] {
      var p := s[..|s| - 1];
      SortByReverses(p, le);
      var sp := SortBy(p, le);
      if sp != [] {
        assert sp[0] == p[|p| - 1];
        assert !le(sp[0], s[|s| - 1]);
      }
    }
  }

  /** `xs.filter(p)`. */
  function Filter<T(!new)>(s: seq<T>, p: T -> bool): (r: seq<T>)
    ensures |r| <= |s|
    ensures forall x :: x in r <==> x in s && p(x)
  {
    if s == [] then []
    else if p(s[0]) then [s[0]] + Filter(s[1..], p)
    else Filter(s[1..], p)
  }

  lemma FilterAll<T(!new)>(s: seq<T>, p: T -> bool)
    requires forall x :: x in s ==> p(x)
    ensures Filter(s, p) == s
  {
  }

  lemma {:induction false} FilterAppend<T(!new)>(a: seq<T>, b: seq<T>, p: T -> bool)
    ensures Filter(a + b, p) == Filter(a, p) + Filter(b, p)
  {
    if a != [] {
      assert (a + b)[1..] == a[1..] + b;
      FilterAppend(a[1..], b, p);
    } else {
      assert a + b == b;
    }
  }

  /** Filtering a sequence that passes, followed by one element that does not, gives the sequence. */
  lemma FilterDropsLast<T(!new)>(s: seq<T>, x: T, p: T -> bool)
    requires forall i :: 0 <= i < |s| ==> p(s[i])
    requires !p(x)
    ensures Filter(s + [x], p) == s
  {
    FilterAppend(s, [x], p);
    FilterAll(s, p);
  }

  /** Filtering keeps the keys of the kept elements pairwise different when they were. */
  lemma {:induction false} FilterKeepsDistinctBy<T(!new), K>(s: seq<T>, p: T -> bool, key: T -> K)
    requires forall i, j :: 0 <= i < j < |s| ==> key(s[i]) != key(s[j])
    ensures forall i, j :: 0 <= i < j < |Filter(s, p)| ==> key(Filter(s, p)[i]) != key(Filter(s, p)[j])
  {
    if s != [] {
      FilterKeepsDistinctBy(s[1..], p, key);
      var tail := Filter(s[1..], p);
      if p(s[0]) {
        var r := [s[0]] + tail;
        assert Filter(s, p) == r;
        forall i, j | 0 <= i < j < |r| ensures key(r[i]) != key(r[j]) {
          if i == 0 {
            assert r[j] == tail[j - 1] && tail[j - 1] in s[1..];
            var m :| 0 <= m < |s[1..]| && s[1..][m] == tail[j - 1];
            assert s[m + 1] == r[j];
          } else {
            assert r[i] == tail[i - 1] && r[j] == tail[j - 1];
          }
        }
      } else {
        assert Filter(s, p) == tail;
      }
    }
  }

  /** Two singletons make a pair. */
  lemma PairCons<T>(x: T, y: T)
    ensures [x] + [y] == [x, y]
  {
  }

  /** A prefix one longer is the prefix and the next element. */
  lemma PrefixSnoc<T>(s: seq<T>, i: int)
    requires 0 <= i < |s|
    ensures s[..i + 1] == s[..i] + [s[i]]
  {
  }

  /** `xs.slice(0, n)`. */
  function Take<T>(s: seq<T>, n: nat): (r: seq<T>)
    ensures |r| <= n && |r| <= |s|
    ensures |s| <= n ==> r == s
    ensures r == s[..|r|]
  {
    if |s| <= n then s else s[..n]
  }

  /** A prefix holds only elements of the sequence, and a short one is all of it. */
  lemma TakeWithin<T>(s: seq<T>, n: nat)
    ensures forall x :: x in Take(s, n) ==> x in s
    ensures |Take(s, n)| < n ==> Take(s, n) == s
  {
  }

  predicate NoDuplicates<T(==)>(s: seq<T>) {
    forall i, j :: 0 <= i < j < |s| ==> s[i] != s[j]
  }

  lemma {:induction false} AtMostOnce<T>(a: seq<T>, x: T)
    requires NoDuplicates(a)
    ensures multiset(a)[x] <= 1
  {
    if a != [] {
      assert a == [a[0]] + a[1..];
      AtMostOnce(a[1..], x);
      if a[0] == x {
        assert x !in a[1..];
      }
    }
  }

  /** A permutation of a sequence without duplicates has none either. */
  lemma NoDuplicatesPermutation<T>(a: seq<T>, b: seq<T>)
    requires multiset(a) == multiset(b) && NoDuplicates(a)
    ensures NoDuplicates(b)
  {
    forall i, j | 0 <= i < j < |b|
      ensures b[i] != b[j]
    {
      if b[i] == b[j] {
        assert b == b[..j] + b[j..];
        assert b[i] in multiset(b[..j]) && b[j] in multiset(b[j..]);
        assert multiset(b)[b[i]] >= 2;
        AtMostOnce(a, b[i]);
      }
    }
  }

  /** A permutation of a sequence whose elements have pairwise different keys has that property too. */
  lemma DistinctByPermutation<T, K>(a: seq<T>, b: seq<T>, f: T -> K)
    requires multiset(a) == multiset(b)
    requires forall i, j :: 0 <= i < j < |a| ==> f(a[i]) != f(a[j])
    ensures forall i, j :: 0 <= i < j < |b| ==> f(b[i]) != f(b[j])
  {
    assert NoDuplicates(a);
    NoDuplicatesPermutation(a, b);
    forall i, j | 0 <= i < j < |b|
      ensures f(b[i]) != f(b[j])
    {
      assert b[i] in multiset(a) && b[j] in multiset(a);
      var p :| 0 <= p < |a| && a[p] == b[i];
      var q :| 0 <= q < |a| && a[q] == b[j];
      assert p != q;
    }
  }

  /** `[...new Set(xs)]`: each value once, at the place it first occurs. */
  function Distinct<T(==,!new)>(s: seq<T>): (r: seq<T>)
    ensures NoDuplicates(r)
    ensures forall x :: x in r <==> x in s
    ensures |r| <= |s|
  {
    if s == [] then []
    else
      var d := Distinct(s[..|s| - 1]);
      var x := s[|s| - 1];
      assert forall y :: y in s <==> y in s[..|s| - 1] || y == x by {
        assert s == s[..|s| - 1] + [x];
      }
      if x in d then d else d + [x]
  }

  /** Two different values are both kept. */
  lemma DistinctPair<T(!new)>(x: T, y: T)
    requires x != y
    ensures Distinct([x, y]) == [x, y]
  {
    assert [x, y][..1] == [x];
    assert [x][..0] == [];
  }

  /** Adding one more value: it is kept only if it is new. */
  lemma DistinctSnoc<T(!new)>(s: seq<T>, x: T)
    ensures Distinct(s + [x]) == if x in Distinct(s) then Distinct(s) else Distinct(s) + [x]
  {
    assert (s + [x])[..|s|] == s;
  }

  /**
   * Walks `s` left to right with a `seen` set of keys, keeping an element only
   * when its key is new and then marking the key seen: first occurrence wins.
   */
  function DistinctByFrom<T(==), K(==)>(s: seq<T>, key: T -> K, seen: set<K>): (r: seq<T>)
    ensures |r| <= |s|
    ensures forall i, j :: 0 <= i < j < |r| ==> key(r[i]) != key(r[j])
    ensures forall i :: 0 <= i < |r| ==> key(r[i]) !in seen && r[i] in s
  {
    if s == [] then []
    else if key(s[0]) in seen then DistinctByFrom(s[1..], key, seen)
    else [s[0]] + DistinctByFrom(s[1..], key, seen + {key(s[0])})
  }

  /** Of two values with one key, only the first is kept. */
  lemma SameKeyDropped<T, K>(x: T, y: T, key: T -> K)
    requires key(x) == key(y)
    ensures DistinctByFrom([x, y], key, {}) == [x]
  {
    assert [x, y][1..] == [y];
    assert [y][1..] == [];
  }

  /** No key is lost: every element whose key was not yet seen has a kept element with that key. */
  lemma {:induction false} DistinctByFromCovers<T, K>(s: seq<T>, key: T -> K, seen: set<K>, i: int)
    requires 0 <= i < |s| && key(s[i]) !in seen
    ensures exists j :: 0 <= j < |DistinctByFrom(s, key, seen)| && key(DistinctByFrom(s, key, seen)[j]) == key(s[i])
  {
    var r := DistinctByFrom(s, key, seen);
    if i == 0 {
      assert key(r[0]) == key(s[0]);
    } else if key(s[0]) in seen {
      DistinctByFromCovers(s[1..], key, seen, i - 1);
    } else if key(s[i]) == key(s[0]) {
      assert key(r[0]) == key(s[i]);
    } else {
      DistinctByFromCovers(s[1..], key, seen + {key(s[0])}, i - 1);
      var j :| 0 <= j < |r[1..]| && key(r[1..][j]) == key(s[i]);
      assert key(r[j + 1]) == key(s[i]);
    }
  }

  /** The element kept for a key is the first one carrying it. */
  lemma {:induction false} DistinctByFromFirst<T, K>(s: seq<T>, key: T -> K, seen: set<K>, i: int)
    requires 0 <= i < |s| && key(s[i]) !in seen
    requires forall k :: 0 <= k < i ==> key(s[k]) != key(s[i])
    ensures s[i] in DistinctByFrom(s, key, seen)
  {
    if i > 0 {
      if key(s[0]) in seen {
        DistinctByFromFirst(s[1..], key, seen, i - 1);
      } else {
        DistinctByFromFirst(s[1..], key, seen + {key(s[0])}, i - 1);
      }
    }
  }

  /** The keys of the elements of `s`. */
  ghost function KeySet<T, K>(s: seq<T>, key: T -> K): set<K> {
    set x | x in s :: key(x)
  }

  /** Walking `a + b` is walking `a`, then walking `b` with every key of `a` seen. */
  lemma {:induction false} DistinctByFromAppend<T, K>(a: seq<T>, b: seq<T>, key: T -> K, seen: set<K>)
    ensures DistinctByFrom(a + b, key, seen) ==
      DistinctByFrom(a, key, seen) + DistinctByFrom(b, key, seen + KeySet(a, key))
  {
    if a == [] {
      assert a + b == b;
      assert KeySet(a, key) == {};
      assert seen + KeySet(a, key) == seen;
      assert DistinctByFrom(a, key, seen) == [];
    } else {
      var k0 := key(a[0]);
      assert (a + b)[0] == a[0] && (a + b)[1..] == a[1..] + b;
      assert KeySet(a, key) == KeySet(a[1..], key) + {k0} by {
        assert forall x :: x in a <==> x == a[0] || x in a[1..];
      }
      if k0 in seen {
        DistinctByFromAppend(a[1..], b, key, seen);
        assert seen + KeySet(a, key) == seen + KeySet(a[1..], key);
      } else {
        DistinctByFromAppend(a[1..], b, key, seen + {k0});
        assert seen + KeySet(a, key) == seen + {k0} + KeySet(a[1..], key);
      }
    }
  }

  /** A walk done up to `i`, advanced over `s[i]`: what a dedupe loop's invariant needs at each visit. */
  lemma DistinctByFromAdvance<T, K>(s: seq<T>, key: T -> K, i: int, seen: set<K>, out: seq<T>, total: seq<T>)
    requires 0 <= i < |s|
    requires out + DistinctByFrom(s[i..], key, seen) == total
    ensures key(s[i]) !in seen ==> (out + [s[i]]) + DistinctByFrom(s[i + 1..], key, seen + {key(s[i])}) == total
    ensures key(s[i]) in seen ==> out + DistinctByFrom(s[i + 1..], key, seen) == total
  {
    assert s[i..][0] == s[i] && s[i..][1..] == s[i + 1..];
  }

  /** One step of the walk: the form each dedupe loop's invariant takes. */
  lemma DistinctByFromStep<T, K>(s: seq<T>, key: T -> K, seen: set<K>)
    requires s != []
    ensures DistinctByFrom(s, key, seen) ==
      if key(s[0]) in seen then DistinctByFrom(s[1..], key, seen)
      else [s[0]] + DistinctByFrom(s[1..], key, seen + {key(s[0])})
  {
  }

  /**
   * Lexicographic order on characters. Within the Basic Multilingual Plane
   * this is the UTF-16 code-unit order of JavaScript's default `sort()`;
   * the two part only where a character beyond that plane meets one from
   * U+E000 to U+FFFF.
   */
  predicate StrLe(a: string, b: string) {
    a == [] || (b != [] && (a[0] < b[0] || (a[0] == b[0] && StrLe(a[1..], b[1..]))))
  }

  lemma {:induction false} StrLeTotal(a: string, b: string)
    ensures StrLe(a, b) || StrLe(b, a)
  {
    if a != [] && b != [] && a[0] == b[0] {
      StrLeTotal(a[1..], b[1..]);
    }
  }

  lemma {:induction false} StrLeTrans(a: string, b: string, c: string)
    requires StrLe(a, b) && StrLe(b, c)
    ensures StrLe(a, c)
  {
    if a != [] && a[0] == b[0] && b[0] == c[0] {
      StrLeTrans(a[1..], b[1..], c[1..]);
    }
  }

  lemma {:induction false} StrLeAntisym(a: string, b: string)
    requires StrLe(a, b) && StrLe(b, a)
    ensures a == b
  {
    if a != [] {
      StrLeAntisym(a[1..], b[1..]);
      assert a == [a[0]] + a[1..] && b == [b[0]] + b[1..];
    }
  }

  /** The code-point order is a total order, so sorting with it is well defined. */
  lemma StrLeTotalPreorder()
    ensures TotalPreorder(StrLe)
  {
    forall a, b ensures StrLe(a, b) || StrLe(b, a) { StrLeTotal(a, b); }
    forall a, b, c | StrLe(a, b) && StrLe(b, c) ensures StrLe(a, c) { StrLeTrans(a, b, c); }
  }

  /** Sorting distinct strings by code point leaves no ties: the order is unique. */
  lemma SortedStrictly(s: seq<string>)
    requires NoDuplicates(s) && Sorted(s, StrLe)
    ensures forall i, j :: 0 <= i < j < |s| ==> !StrLe(s[j], s[i])
  {
    forall i, j | 0 <= i < j < |s|
      ensures !StrLe(s[j], s[i])
    {
      if StrLe(s[j], s[i]) { StrLeAntisym(s[i], s[j]); }
    }
  }
}
