/** Python's `sorted(items, key=...)` and `list.sort(key=...)` for the
    two-element tuple keys the program builds. The library sort is a stable
    comparison sort; it is modelled by a stable insertion sort, and what the
    program relies on (a permutation, in key order, equal keys in input
    order) is proved about it. */
module StableSort {

  /** A float sort key: a finite value, or `float("inf")`. */
  datatype Ext = Fin(r: real) | PosInf

  /** `a < b` on extended values. */
  predicate ExtLt(a: Ext, b: Ext) {
    a.Fin? && (b.PosInf? || a.r < b.r)
  }

  /** A key `(first, second)`, compared as Python compares tuples. */
  datatype Key = Key(first: Ext, second: Ext)

  /** Tuple `<`: the first components decide unless they are equal. */
  predicate KeyLt(a: Key, b: Key) {
    if a.first == b.first then ExtLt(a.second, b.second) else ExtLt(a.first, b.first)
  }

  /** `not (b < a)`: `a` may stay before `b` in a sorted list. */
  predicate KeyLe(a: Key, b: Key) {
    !KeyLt(b, a)
  }

  /** Tuple order is a total preorder; equal keys are the same key. */
  lemma KeyLeTotal(a: Key, b: Key)
    ensures KeyLe(a, b) || KeyLe(b, a)
    ensures KeyLe(a, b) && KeyLe(b, a) ==> a == b
  {
  }

  lemma KeyLeTrans(a: Key, b: Key, c: Key)
    requires KeyLe(a, b) && KeyLe(b, c)
    ensures KeyLe(a, c)
  {
  }

  /** Adjacent elements are in key order. */
  predicate Sorted<T>(xs: seq<T>, key: T -> Key) {
    forall i :: 0 <= i < |xs| - 1 ==> KeyLe(key(xs[i]), key(xs[i + 1]))
  }

  /** The elements whose key is `k`, in their order in `xs`. */
  function WithKey<T>(xs: seq<T>, key: T -> Key, k: Key): (r: seq<T>)
    ensures |r| <= |xs|
  {
    if xs == [] then []
    else (if key(xs[0]) == k then [xs[0]] else []) + WithKey(xs[1..], key, k)
  }

  /** Inserts `x` before the first element whose key is not smaller than
      its own, that is, after every element that sorts strictly before it. */
  function Insert<T>(x: T, ys: seq<T>, key: T -> Key): (r: seq<T>)
    ensures |r| == |ys| + 1
  {
    if ys == [] || KeyLe(key(x), key(ys[0])) then [x] + ys
    else [ys[0]] + Insert(x, ys[1..], key)
  }

  /** `sorted(xs, key=key)`. */
  function SortBy<T>(xs: seq<T>, key: T -> Key): (r: seq<T>)
    ensures |r| == |xs|
  {
    if xs == [] then [] else Insert(xs[0], SortBy(xs[1..], key), key)
  }

  lemma {:induction false} InsertPermutes<T>(x: T, ys: seq<T>, key: T -> Key)
    ensures multiset(Insert(x, ys, key)) == multiset(ys) + multiset{x}
  {
    if ys != [] && !KeyLe(key(x), key(ys[0])) {
      InsertPermutes(x, ys[1..], key);
      assert ys == [ys[0]] + ys[1..];
    }
  }

  lemma {:induction false} InsertSorted<T>(x: T, ys: seq<T>, key: T -> Key)
    requires Sorted(ys, key)
    ensures Sorted(Insert(x, ys, key), key)
    ensures ys != [] ==> Insert(x, ys, key)[0] == x || Insert(x, ys, key)[0] == ys[0]
  {
    if ys != [] && !KeyLe(key(x), key(ys[0])) {
      assert Sorted(ys[1..], key) by {
        forall i | 0 <= i < |ys[1..]| - 1 ensures KeyLe(key(ys[1..][i]), key(ys[1..][i + 1])) {
          assert ys[1..][i] == ys[i + 1] && ys[1..][i + 1] == ys[i + 2];
        }
      }
      InsertSorted(x, ys[1..], key);
      KeyLeTotal(key(x), key(ys[0]));
    }
  }

  /** Inserting `x` puts it before every element with its key. */
  lemma {:induction false} InsertWithKey<T>(x: T, ys: seq<T>, key: T -> Key, k: Key)
    ensures WithKey(Insert(x, ys, key), key, k)
         == (if key(x) == k then [x] else []) + WithKey(ys, key, k)
  {
    var r := Insert(x, ys, key);
    if ys == [] || KeyLe(key(x), key(ys[0])) {
      assert r[1..] == ys;
    } else {
      InsertWithKey(x, ys[1..], key, k);
      assert r[1..] == Insert(x, ys[1..], key);
      assert ys == [ys[0]] + ys[1..];
    }
  }

  /** The result of the sort is a permutation of its input. */
  lemma {:induction false} SortPermutes<T>(xs: seq<T>, key: T -> Key)
    ensures multiset(SortBy(xs, key)) == multiset(xs)
  {
    if xs != [] {
      SortPermutes(xs[1..], key);
      InsertPermutes(xs[0], SortBy(xs[1..], key), key);
      assert xs == [xs[0]] + xs[1..];
    }
  }

  /** The result of the sort is in key order. */
  lemma {:induction false} SortSorted<T>(xs: seq<T>, key: T -> Key)
    ensures Sorted(SortBy(xs, key), key)
  {
    if xs != [] {
      SortSorted(xs[1..], key);
      InsertSorted(xs[0], SortBy(xs[1..], key), key);
    }
  }

  /** The sort is stable: the elements of each key keep their input order. */
  lemma {:induction false} SortStable<T>(xs: seq<T>, key: T -> Key, k: Key)
    ensures WithKey(SortBy(xs, key), key, k) == WithKey(xs, key, k)
  {
    if xs != [] {
      SortStable(xs[1..], key, k);
      InsertWithKey(xs[0], SortBy(xs[1..], key), key, k);
    }
  }

  /** In a sorted list every element may stay before every later one. */
  lemma {:induction false} SortedAt<T>(xs: seq<T>, key: T -> Key, i: nat, j: nat)
    requires Sorted(xs, key) && i <= j < |xs|
    ensures KeyLe(key(xs[i]), key(xs[j]))
    decreases j - i
  {
    if i < j {
      SortedAt(xs, key, i + 1, j);
      KeyLeTrans(key(xs[i]), key(xs[i + 1]), key(xs[j]));
    }
  }

  /** The elements of a prefix that have key `k` start those of the whole
      list. */
  lemma {:induction false} WithKeyPrefix<T>(xs: seq<T>, key: T -> Key, k: Key, e: nat)
    requires e <= |xs|
    ensures WithKey(xs[..e], key, k) <= WithKey(xs, key, k)
    decreases e
  {
    if e > 0 {
      WithKeyPrefix(xs[1..], key, k, e - 1);
      assert xs[..e][1..] == xs[1..][..e - 1];
      assert xs[..e][0] == xs[0];
    }
  }

  /** A list already in key order is left as it is. */
  lemma {:induction false} SortOfSorted<T>(xs: seq<T>, key: T -> Key)
    requires Sorted(xs, key)
    ensures SortBy(xs, key) == xs
  {
    if xs != [] {
      assert Sorted(xs[1..], key) by {
        forall i | 0 <= i < |xs[1..]| - 1 ensures KeyLe(key(xs[1..][i]), key(xs[1..][i + 1])) {
          assert xs[1..][i] == xs[i + 1] && xs[1..][i + 1] == xs[i + 2];
        }
      }
      SortOfSorted(xs[1..], key);
      assert xs == [xs[0]] + xs[1..];
    }
  }
}
