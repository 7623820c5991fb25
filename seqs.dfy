/** Sequence helpers standing for the LINQ operators `Where` and `OrderBy` used by the generator. */
module Seqs {

  /** `Where`: the elements of `s` that satisfy `p`, in their original order. */
  function Filter<T>(s: seq<T>, p: T -> bool): (r: seq<T>)
    ensures |r| <= |s|
  {
    if s == [] then []
    else
      (if p(s[0]) then [s[0]] else []) + Filter(s[1..], p)
  }

  /** Exactly the elements of `s` that satisfy `p` survive `Filter`. */
  lemma {:induction false} FilterMembers<T>(s: seq<T>, p: T -> bool)
    ensures forall i :: 0 <= i < |Filter(s, p)| ==> Filter(s, p)[i] in s && p(Filter(s, p)[i])
    ensures forall i :: 0 <= i < |s| && p(s[i]) ==> s[i] in Filter(s, p)
  {
    if s != [] {
      FilterMembers(s[1..], p);
      var r := Filter(s, p);
      var t := Filter(s[1..], p);
      assert r == (if p(s[0]) then [s[0]] else []) + t;
      forall i | 0 <= i < |r| ensures r[i] in s && p(r[i]) {
        if !p(s[0]) || i > 0 {
          var j := if p(s[0]) then i - 1 else i;
          assert r[i] == t[j];
        }
      }
      forall i | 0 <= i < |s| && p(s[i]) ensures s[i] in r {
        if i > 0 {
          assert s[i] == s[1..][i - 1];
        }
      }
    }
  }

  /** The negation of a predicate, as a value that can be passed to `Filter`. */
  function Not<T>(p: T -> bool): T -> bool {
    x => !p(x)
  }

  /** The predicate "has key `k`", as a value that can be passed to `Filter`. */
  function HasKey<T>(key: T -> nat, k: nat): T -> bool {
    x => key(x) == k
  }

  lemma {:induction false} FilterConcat<T>(a: seq<T>, b: seq<T>, p: T -> bool)
    ensures Filter(a + b, p) == Filter(a, p) + Filter(b, p)
  {
    if a == [] {
      assert a + b == b;
    } else {
      assert (a + b)[0] == a[0];
      assert (a + b)[1..] == a[1..] + b;
      FilterConcat(a[1..], b, p);
      var h := if p(a[0]) then [a[0]] else [];
      assert Filter(a + b, p) == h + Filter(a[1..] + b, p);
      assert Filter(a, p) == h + Filter(a[1..], p);
    }
  }

  /** Filtering by `p` and by its negation splits `s` into two parts that together hold every element once. */
  lemma {:induction false} FilterPartition<T>(s: seq<T>, p: T -> bool)
    ensures multiset(Filter(s, p)) + multiset(Filter(s, Not(p))) == multiset(s)
  {
    if s != [] {
      var rest := s[1..];
      FilterPartition(rest, p);
      assert s == [s[0]] + rest;
      assert multiset(s) == multiset{s[0]} + multiset(rest);
      if p(s[0]) {
        assert Filter(s, p) == [s[0]] + Filter(rest, p);
        assert Filter(s, Not(p)) == Filter(rest, Not(p));
      } else {
        assert Filter(s, p) == Filter(rest, p);
        assert Filter(s, Not(p)) == [s[0]] + Filter(rest, Not(p));
      }
    }
  }

  ghost predicate SortedByKey<T>(s: seq<T>, key: T -> nat) {
    forall i, j :: 0 <= i < j < |s| ==> key(s[i]) <= key(s[j])
  }

  /** Inserts `x` into a key-sorted sequence after every element whose key is not larger than `x`'s. */
  function InsertByKey<T>(x: T, s: seq<T>, key: T -> nat): (r: seq<T>)
    ensures |r| == |s| + 1
  {
    if s == [] then [x]
    else if key(s[0]) > key(x) then [x] + s
    else [s[0]] + InsertByKey(x, s[1..], key)
  }

  /** Inserting adds `x` and keeps every element of `s`. */
  lemma {:induction false} InsertByKeyPermutes<T>(x: T, s: seq<T>, key: T -> nat)
    ensures multiset(InsertByKey(x, s, key)) == multiset(s) + multiset{x}
  {
    if s != [] && key(s[0]) <= key(x) {
      var rest := s[1..];
      var t := InsertByKey(x, rest, key);
      InsertByKeyPermutes(x, rest, key);
      assert InsertByKey(x, s, key) == [s[0]] + t;
      assert multiset([s[0]] + t) == multiset{s[0]} + multiset(t);
      assert s == [s[0]] + rest;
      assert multiset(s) == multiset{s[0]} + multiset(rest);
    }
  }

  /** `OrderBy(key)`: LINQ's stable sort, as an insertion sort that takes the elements in their original order. */
  function OrderBy<T>(s: seq<T>, key: T -> nat): (r: seq<T>)
    ensures |r| == |s|
  {
    if s == [] then []
    else InsertByKey(s[|s| - 1], OrderBy(s[..|s| - 1], key), key)
  }

  /** `OrderBy` returns a permutation of its input. */
  lemma {:induction false} OrderByPermutes<T>(s: seq<T>, key: T -> nat)
    ensures multiset(OrderBy(s, key)) == multiset(s)
  {
    if s != [] {
      var init := s[..|s| - 1];
      OrderByPermutes(init, key);
      InsertByKeyPermutes(s[|s| - 1], OrderBy(init, key), key);
      assert s == init + [s[|s| - 1]];
    }
  }

  lemma {:induction false} InsertByKeySorted<T>(x: T, s: seq<T>, key: T -> nat)
    requires SortedByKey(s, key)
    ensures SortedByKey(InsertByKey(x, s, key), key)
    ensures InsertByKey(x, s, key) != [] && (s == [] || key(InsertByKey(x, s, key)[0]) == if key(s[0]) > key(x) then key(x) else key(s[0]))
  {
    if s != [] && key(s[0]) <= key(x) {
      InsertByKeySorted(x, s[1..], key);
      var t := InsertByKey(x, s[1..], key);
      assert InsertByKey(x, s, key) == [s[0]] + t;
      forall i, j | 0 <= i < j < |[s[0]] + t| ensures key(([s[0]] + t)[i]) <= key(([s[0]] + t)[j]) {
        if i == 0 && j > 0 {
          if s[1..] == [] {
            assert t == [x];
          } else {
            assert key(t[0]) >= key(s[0]);
          }
        }
      }
    }
  }

  /** `OrderBy` returns its input sorted by key. */
  lemma {:induction false} OrderBySorted<T>(s: seq<T>, key: T -> nat)
    ensures SortedByKey(OrderBy(s, key), key)
  {
    if s != [] {
      OrderBySorted(s[..|s| - 1], key);
      InsertByKeySorted(s[|s| - 1], OrderBy(s[..|s| - 1], key), key);
    }
  }

  lemma {:induction false} FilterEmpty<T>(s: seq<T>, p: T -> bool)
    requires forall i :: 0 <= i < |s| ==> !p(s[i])
    ensures Filter(s, p) == []
  {
    if s != [] {
      FilterEmpty(s[1..], p);
    }
  }

  /** Inserting in front of elements with larger keys: no element of `s` has `x`'s key. */
  lemma InsertFrontFilter<T>(x: T, s: seq<T>, key: T -> nat, k: nat)
    requires SortedByKey(s, key) && s != [] && key(s[0]) > key(x)
    ensures Filter([x] + s, HasKey(key, k)) == Filter(s, HasKey(key, k)) + (if key(x) == k then [x] else [])
  {
    var p := HasKey(key, k);
    FilterConcat([x], s, p);
    assert [x][1..] == [];
    if key(x) == k {
      assert forall i :: 0 <= i < |s| ==> !p(s[i]) by {
        forall i | 0 <= i < |s| ensures !p(s[i]) {
          if i > 0 {
            assert key(s[0]) <= key(s[i]);
          }
        }
      }
      FilterEmpty(s, p);
    }
  }

  lemma {:induction false} InsertByKeyFilter<T>(x: T, s: seq<T>, key: T -> nat, k: nat)
    requires SortedByKey(s, key)
    ensures Filter(InsertByKey(x, s, key), HasKey(key, k))
         == Filter(s, HasKey(key, k)) + (if key(x) == k then [x] else [])
  {
    if s == [] {
    } else if key(s[0]) > key(x) {
      InsertFrontFilter(x, s, key, k);
    } else {
      var p := HasKey(key, k);
      var rest := s[1..];
      InsertByKeyFilter(x, rest, key, k);
      FilterConcat([s[0]], InsertByKey(x, rest, key), p);
      FilterConcat([s[0]], rest, p);
      assert s == [s[0]] + rest;
    }
  }

  /** `OrderBy` is stable: the elements that share a key keep their original relative order. */
  lemma {:induction false} OrderByStable<T>(s: seq<T>, key: T -> nat, k: nat)
    ensures Filter(OrderBy(s, key), HasKey(key, k)) == Filter(s, HasKey(key, k))
  {
    if s != [] {
      var init, last := s[..|s| - 1], s[|s| - 1];
      var p := HasKey(key, k);
      assert OrderBy(s, key) == InsertByKey(last, OrderBy(init, key), key);
      OrderByStable(init, key, k);
      OrderBySorted(init, key);
      InsertByKeyFilter(last, OrderBy(init, key), key, k);
      var tail := if key(last) == k then [last] else [];
      assert Filter(OrderBy(s, key), p) == Filter(init, p) + tail;
      assert [last][1..] == [];
      assert Filter([last], p) == tail;
      assert s == init + [last];
      FilterConcat(init, [last], p);
    }
  }
}
