/**
 * The Python collection behaviour the loaders depend on: `dict` with its
 * insertion order (an association list), grouping rows into nested dicts by
 * repeated `d.setdefault(k, ...)`-style appends, and `sorted` / `list.sort`.
 */
module Collections {
  import opened Base

  // ---------------------------------------------------------------------------
  /** A suffix of `xs` is its first element followed by the next suffix. */
  lemma SuffixCons<T>(xs: seq<T>, i: nat)
    requires i < |xs|
    ensures xs[i..] == [xs[i]] + xs[i + 1..]
  {
  }

  /** A prefix one longer holds exactly one more element. */
  lemma PrefixSnoc<T>(xs: seq<T>, i: nat)
    requires i < |xs|
    ensures forall y :: y in xs[..i + 1] <==> y in xs[..i] || y == xs[i]
  {
    assert xs[..i + 1] == xs[..i] + [xs[i]];
  }

  // Filtering and mapping

  /** The elements of `xs` whose key is `k`, in their original order. */
  function Select<T, K(==)>(xs: seq<T>, key: T -> K, k: K): (r: seq<T>)
    ensures |r| <= |xs|
    ensures forall i | 0 <= i < |r| :: key(r[i]) == k
  {
    if xs == [] then []
    else (if key(xs[0]) == k then [xs[0]] else []) + Select(xs[1..], key, k)
  }

  lemma {:induction false} SelectAppend<T, K>(xs: seq<T>, ys: seq<T>, key: T -> K, k: K)
    ensures Select(xs + ys, key, k) == Select(xs, key, k) + Select(ys, key, k)
  {
    if xs == [] {
      assert xs + ys == ys;
    } else {
      assert (xs + ys)[0] == xs[0];
      assert (xs + ys)[1..] == xs[1..] + ys;
      SelectAppend(xs[1..], ys, key, k);
    }
  }

  /** Selecting by two keys that agree on every element gives the same result. */
  lemma {:induction false} SelectSame<T, K>(xs: seq<T>, key: T -> K, key': T -> K, k: K)
    requires forall i | 0 <= i < |xs| :: key(xs[i]) == key'(xs[i])
    ensures Select(xs, key, k) == Select(xs, key', k)
  {
    if xs != [] {
      SelectSame(xs[1..], key, key', k);
    }
  }

  /** Nothing is invented: every selected element is an element of `xs`. */
  lemma {:induction false} SelectWithin<T, K>(xs: seq<T>, key: T -> K, k: K, x: T)
    requires x in Select(xs, key, k)
    ensures x in xs && key(x) == k
  {
    if x != xs[0] {
      SelectWithin(xs[1..], key, k, x);
    }
  }

  /** Selecting keeps every element with key `k` as often as it occurs, and no other. */
  lemma {:induction false} SelectCount<T, K>(xs: seq<T>, key: T -> K, k: K, x: T)
    ensures multiset(Select(xs, key, k))[x] == if key(x) == k then multiset(xs)[x] else 0
  {
    if xs != [] {
      assert xs == [xs[0]] + xs[1..];
      SelectCount(xs[1..], key, k, x);
    }
  }

  /** Nothing of `xs` is lost: an element with key `key(x)` is selected under that key. */
  lemma {:induction false} SelectContains<T, K>(xs: seq<T>, key: T -> K, i: nat)
    requires i < |xs|
    ensures xs[i] in Select(xs, key, key(xs[i]))
  {
    if i > 0 {
      SelectContains(xs[1..], key, i - 1);
    }
  }

  function MapSeq<T, V>(f: T -> V, xs: seq<T>): (r: seq<V>)
    ensures |r| == |xs| && forall i | 0 <= i < |xs| :: r[i] == f(xs[i])
  {
    seq(|xs|, i requires 0 <= i < |xs| => f(xs[i]))
  }

  predicate Distinct<T(==)>(xs: seq<T>) {
    forall i, j | 0 <= i < j < |xs| :: xs[i] != xs[j]
  }

  /** `list(set(xs))`, up to order: each element once, at its first occurrence. */
  function Dedup<T(==)>(xs: seq<T>): (r: seq<T>)
    ensures Distinct(r)
    ensures forall i | 0 <= i < |xs| :: xs[i] in r
    ensures forall i | 0 <= i < |r| :: r[i] in xs
  {
    if xs == [] then []
    else
      var init, x := xs[..|xs| - 1], xs[|xs| - 1];
      assert xs == init + [x];
      if x in Dedup(init) then Dedup(init) else Dedup(init) + [x]
  }

  // ---------------------------------------------------------------------------
  // Insertion-ordered dictionaries

  /** A Python dict: key/value pairs in insertion order. */
  type Dict<K, V> = seq<(K, V)>

  function Keys<K, V>(d: Dict<K, V>): (ks: seq<K>)
    ensures |ks| == |d| && forall i | 0 <= i < |d| :: ks[i] == d[i].0
  {
    seq(|d|, i requires 0 <= i < |d| => d[i].0)
  }

  /** The position of key `k`, if present. */
  function Find<K(==), V>(d: Dict<K, V>, k: K): (r: Option<nat>)
    ensures r.None? <==> k !in Keys(d)
    ensures r.Some? ==> r.value < |d| && d[r.value].0 == k
    ensures r.Some? ==> forall i | 0 <= i < r.value :: d[i].0 != k
  {
    if d == [] then None
    else if d[0].0 == k then Some(0)
    else match Find(d[1..], k)
      case None => None
      case Some(i) => Some(i + 1)
  }

  /** `d.get(k, dflt)` */
  function Get<K(==), V>(d: Dict<K, V>, k: K, dflt: V): V {
    match Find(d, k)
    case None => dflt
    case Some(i) => d[i].1
  }

  /** `d[k] = v`: an existing key keeps its position, a new key goes last. */
  function Put<K(==), V>(d: Dict<K, V>, k: K, v: V): (r: Dict<K, V>)
    ensures Keys(r) == if k in Keys(d) then Keys(d) else Keys(d) + [k]
  {
    match Find(d, k)
    case None => d + [(k, v)]
    case Some(i) => d[i := (k, v)]
  }

  /** The first position holding key `k` is the one `Find` reports. */
  lemma FindFirst<K, V>(d: Dict<K, V>, k: K, i: nat)
    requires i < |d| && d[i].0 == k && forall j | 0 <= j < i :: d[j].0 != k
    ensures Find(d, k) == Some(i)
  {
    assert Keys(d)[i] == k;
  }

  lemma GetPut<K, V>(d: Dict<K, V>, k: K, v: V, k': K, dflt: V)
    ensures Get(Put(d, k, v), k', dflt) == if k' == k then v else Get(d, k', dflt)
  {
    var r := Put(d, k, v);
    match Find(d, k)
    case None =>
      if k' == k {
        FindFirst(r, k, |d|);
      } else if Find(d, k').Some? {
        FindFirst(r, k', Find(d, k').value);
      }
    case Some(i) =>
      if k' == k {
        FindFirst(r, k, i);
      } else if Find(d, k').Some? {
        FindFirst(r, k', Find(d, k').value);
      }
  }

  /** In a dict without repeated keys, the key at position `i` finds the value at position `i`. */
  lemma GetIndex<K, V>(d: Dict<K, V>, i: nat, dflt: V)
    requires Distinct(Keys(d)) && i < |d|
    ensures Get(d, d[i].0, dflt) == d[i].1
  {
    var j := Find(d, d[i].0).value;
    assert Keys(d)[j] == Keys(d)[i];
  }

  /**
   * `OrderedDict` filled with `r[k] = f(d[k])` for each `k` of `ks` in turn:
   * the keys are `ks`, in that order.
   */
  function Reorder<K(==), V, W>(d: Dict<K, V>, ks: seq<K>, dflt: V, f: V -> W): (r: Dict<K, W>)
    ensures Keys(r) == ks
  {
    MapSeq((k: K) => (k, f(Get(d, k, dflt))), ks)
  }

  /** A listed key maps to `f` of its old value; any other key is absent. */
  lemma GetReorder<K, V, W>(d: Dict<K, V>, ks: seq<K>, dflt: V, f: V -> W, k: K, wdflt: W)
    ensures Get(Reorder(d, ks, dflt, f), k, wdflt) == if k in ks then f(Get(d, k, dflt)) else wdflt
  {
    var r := Reorder(d, ks, dflt, f);
    if k in ks {
      var j := Find(r, k).value;
      assert r[j] == (ks[j], f(Get(d, ks[j], dflt)));
    }
  }

  /** One more key filled in, after the others. */
  lemma ReorderSnoc<K, V, W>(d: Dict<K, V>, ks: seq<K>, k: K, dflt: V, f: V -> W)
    ensures Reorder(d, ks + [k], dflt, f) == Reorder(d, ks, dflt, f) + [(k, f(Get(d, k, dflt)))]
  {
    var r, r' := Reorder(d, ks + [k], dflt, f), Reorder(d, ks, dflt, f) + [(k, f(Get(d, k, dflt)))];
    assert forall i | 0 <= i < |r| :: r[i] == r'[i];
  }

  // ---------------------------------------------------------------------------
  // Folds that group values into nested dicts

  /** The loop `acc = init; for x in xs: acc = step(acc, x)`. */
  function Fold<T, A>(xs: seq<T>, init: A, step: (A, T) -> A): A {
    if xs == [] then init
    else step(Fold(xs[..|xs| - 1], init, step), xs[|xs| - 1])
  }

  lemma FoldSnoc<T, A>(xs: seq<T>, x: T, init: A, step: (A, T) -> A)
    ensures Fold(xs + [x], init, step) == step(Fold(xs, init, step), x)
  {
    assert (xs + [x])[..|xs|] == xs;
  }

  /** `acc.append(val(x))` */
  function Append<T, V>(val: T -> V): (seq<V>, T) -> seq<V> {
    (acc: seq<V>, x: T) => acc + [val(x)]
  }

  /**
   * `d.setdefault(key(x), empty)` followed by `step` on that entry: the
   * `defaultdict` / `if k not in d: d[k] = ...` idiom of the loaders.
   */
  function Nest<T, K(==), A>(key: T -> K, empty: A, step: (A, T) -> A): (Dict<K, A>, T) -> Dict<K, A> {
    (d: Dict<K, A>, x: T) => Put(d, key(x), step(Get(d, key(x), empty), x))
  }

  /** Appending every element gives the mapped sequence, in order. */
  lemma {:induction false} FoldAppend<T, V>(xs: seq<T>, val: T -> V)
    ensures Fold(xs, [], Append(val)) == MapSeq(val, xs)
  {
    if xs != [] {
      FoldAppend(xs[..|xs| - 1], val);
    }
  }

  /**
   * The entry that grouping leaves under key `k` is what the inner step
   * builds from exactly the elements with key `k`, in their original order.
   */
  lemma {:induction false} FoldNestGet<T, K, A>(xs: seq<T>, key: T -> K, empty: A, step: (A, T) -> A, k: K)
    ensures Get(Fold(xs, [], Nest(key, empty, step)), k, empty) == Fold(Select(xs, key, k), empty, step)
  {
    if xs != [] {
      var init, x := xs[..|xs| - 1], xs[|xs| - 1];
      assert xs == init + [x];
      FoldNestGet(init, key, empty, step, k);
      var d := Fold(init, [], Nest(key, empty, step));
      GetPut(d, key(x), step(Get(d, key(x), empty), x), k, empty);
      SelectAppend(init, [x], key, k);
      if key(x) == k {
        FoldSnoc(Select(init, key, k), x, empty, step);
      } else {
        assert Select(xs, key, k) == Select(init, key, k);
      }
    }
  }

  /** A key is present after grouping exactly when some element carries it. */
  lemma {:induction false} FoldNestKeys<T, K, A>(xs: seq<T>, key: T -> K, empty: A, step: (A, T) -> A, k: K)
    ensures k in Keys(Fold(xs, [], Nest(key, empty, step))) <==> Select(xs, key, k) != []
  {
    if xs != [] {
      var init, x := xs[..|xs| - 1], xs[|xs| - 1];
      assert xs == init + [x];
      FoldNestKeys(init, key, empty, step, k);
      SelectAppend(init, [x], key, k);
      var d := Fold(init, [], Nest(key, empty, step));
      assert Fold(xs, [], Nest(key, empty, step)) == Put(d, key(x), step(Get(d, key(x), empty), x));
    }
  }

  lemma {:induction false} FoldNestDistinct<T, K, A>(xs: seq<T>, key: T -> K, empty: A, step: (A, T) -> A)
    ensures Distinct(Keys(Fold(xs, [], Nest(key, empty, step))))
  {
    if xs != [] {
      var init, x := xs[..|xs| - 1], xs[|xs| - 1];
      FoldNestDistinct(init, key, empty, step);
      var d := Fold(init, [], Nest(key, empty, step));
      assert Fold(xs, [], Nest(key, empty, step)) == Put(d, key(x), step(Get(d, key(x), empty), x));
    }
  }

  // ---------------------------------------------------------------------------
  // Sorting

  /** `lt` is a strict total order, as Python's `<` is on strings, ints and tuples of them. */
  ghost predicate StrictTotalOrder<T(!new)>(lt: (T, T) -> bool) {
    && (forall a :: !lt(a, a))
    && (forall a, b, c :: lt(a, b) && lt(b, c) ==> lt(a, c))
    && (forall a, b :: a != b ==> lt(a, b) || lt(b, a))
  }

  predicate Ascending<T>(xs: seq<T>, lt: (T, T) -> bool) {
    forall i, j | 0 <= i < j < |xs| :: !lt(xs[j], xs[i])
  }

  predicate StrictlyAscending<T>(xs: seq<T>, lt: (T, T) -> bool) {
    forall i, j | 0 <= i < j < |xs| :: lt(xs[i], xs[j])
  }

  function Insert<T>(x: T, xs: seq<T>, lt: (T, T) -> bool): (r: seq<T>)
    ensures multiset(r) == multiset(xs) + multiset{x}
  {
    if xs == [] then [x]
    else if lt(xs[0], x) then
      assert xs == [xs[0]] + xs[1..];
      [xs[0]] + Insert(x, xs[1..], lt)
    else [x] + xs
  }

  lemma {:induction false} InsertAscending<T(!new)>(x: T, xs: seq<T>, lt: (T, T) -> bool)
    requires StrictTotalOrder(lt) && Ascending(xs, lt)
    ensures Ascending(Insert(x, xs, lt), lt)
  {
    if xs != [] && lt(xs[0], x) {
      InsertAscending(x, xs[1..], lt);
      var r := Insert(x, xs, lt);
      forall j | 0 < j < |r| ensures !lt(r[j], r[0]) {
        assert r[j] in multiset(Insert(x, xs[1..], lt));
        assert r[j] == x || r[j] in xs[1..];
      }
    }
  }

  /** `sorted(xs)`: insertion sort, a permutation of `xs`. */
  function Sort<T>(xs: seq<T>, lt: (T, T) -> bool): (r: seq<T>)
    ensures multiset(r) == multiset(xs)
  {
    if xs == [] then []
    else
      assert xs == [xs[0]] + xs[1..];
      Insert(xs[0], Sort(xs[1..], lt), lt)
  }

  /** Under a strict total order, `Sort` puts its result in ascending order. */
  lemma {:induction false} SortAscending<T(!new)>(xs: seq<T>, lt: (T, T) -> bool)
    requires StrictTotalOrder(lt)
    ensures Ascending(Sort(xs, lt), lt)
  {
    if xs != [] {
      SortAscending(xs[1..], lt);
      InsertAscending(xs[0], Sort(xs[1..], lt), lt);
    }
  }

  /** Sorting neither adds nor drops an element. */
  lemma SortSameElements<T>(xs: seq<T>, lt: (T, T) -> bool, x: T)
    ensures x in Sort(xs, lt) <==> x in xs
  {
    assert multiset(Sort(xs, lt)) == multiset(xs);
    assert x in Sort(xs, lt) <==> x in multiset(Sort(xs, lt));
  }

  /** Sorting distinct keys (a dict's) gives them in strictly ascending order. */
  lemma SortDistinct<T(!new)>(xs: seq<T>, lt: (T, T) -> bool)
    requires StrictTotalOrder(lt) && Distinct(xs)
    ensures StrictlyAscending(Sort(xs, lt), lt) && Distinct(Sort(xs, lt))
  {
    var r := Sort(xs, lt);
    SortAscending(xs, lt);
    forall i, j | 0 <= i < j < |r| ensures r[i] != r[j] && lt(r[i], r[j]) {
      if r[i] == r[j] {
        assert multiset(r)[r[i]] >= 2 by {
          assert r == r[..i] + [r[i]] + r[i + 1..j] + [r[j]] + r[j + 1..];
        }
        DistinctCount(xs, r[i]);
      }
    }
  }

  lemma {:induction false} DistinctCount<T>(xs: seq<T>, x: T)
    requires Distinct(xs)
    ensures multiset(xs)[x] <= 1
  {
    if xs != [] {
      assert xs == [xs[0]] + xs[1..];
      DistinctCount(xs[1..], x);
      assert xs[0] !in xs[1..];
    }
  }

  /** The elements of `xs` are in non-decreasing order of `key`. */
  predicate SortedByKey<T>(xs: seq<T>, key: T -> int) {
    forall i, j | 0 <= i < j < |xs| :: key(xs[i]) <= key(xs[j])
  }

  function InsertByKey<T>(x: T, xs: seq<T>, key: T -> int): (r: seq<T>)
    ensures multiset(r) == multiset(xs) + multiset{x}
  {
    if xs == [] then [x]
    else if key(xs[0]) < key(x) then
      assert xs == [xs[0]] + xs[1..];
      [xs[0]] + InsertByKey(x, xs[1..], key)
    else [x] + xs
  }

  lemma {:induction false} InsertByKeySorted<T>(x: T, xs: seq<T>, key: T -> int)
    requires SortedByKey(xs, key)
    ensures SortedByKey(InsertByKey(x, xs, key), key)
  {
    if xs != [] && key(xs[0]) < key(x) {
      InsertByKeySorted(x, xs[1..], key);
      var r := InsertByKey(x, xs, key);
      forall j | 0 < j < |r| ensures key(r[0]) <= key(r[j]) {
        assert r[j] in multiset(InsertByKey(x, xs[1..], key));
        assert r[j] == x || r[j] in xs[1..];
      }
    }
  }

  /** Selecting from a sequence given by its first element. */
  lemma SelectCons<T, K>(y: T, ys: seq<T>, key: T -> K, k: K)
    ensures Select([y] + ys, key, k) == (if key(y) == k then [y] else []) + Select(ys, key, k)
  {
    assert ([y] + ys)[1..] == ys;
  }

  lemma {:induction false} InsertByKeySelect<T>(x: T, xs: seq<T>, key: T -> int, k: int)
    ensures Select(InsertByKey(x, xs, key), key, k) == (if key(x) == k then [x] else []) + Select(xs, key, k)
  {
    if xs == [] {
      SelectCons(x, xs, key, k);
    } else if key(xs[0]) < key(x) {
      var rest := InsertByKey(x, xs[1..], key);
      assert InsertByKey(x, xs, key) == [xs[0]] + rest;
      assert xs == [xs[0]] + xs[1..];
      InsertByKeySelect(x, xs[1..], key, k);
      SelectCons(xs[0], rest, key, k);
      SelectCons(xs[0], xs[1..], key, k);
    } else {
      SelectCons(x, xs, key, k);
    }
  }

  /** One step of `SortByKey`: inserting the head into the sorted tail. */
  lemma SortByKeyStep<T>(x: T, xs: seq<T>, rest: seq<T>, key: T -> int)
    requires SortedByKey(rest, key)
    requires forall k :: Select(rest, key, k) == Select(xs, key, k)
    ensures SortedByKey(InsertByKey(x, rest, key), key)
    ensures forall k :: Select(InsertByKey(x, rest, key), key, k) == Select([x] + xs, key, k)
  {
    InsertByKeySorted(x, rest, key);
    forall k ensures Select(InsertByKey(x, rest, key), key, k) == Select([x] + xs, key, k) {
      InsertByKeySelect(x, rest, key, k);
      assert ([x] + xs)[1..] == xs;
    }
  }

  /**
   * `xs.sort(key=key)` / `sorted(xs, key=key)`: Python's sort is stable, so
   * elements with equal keys keep their input order. Stated as: for every key
   * value, the elements carrying it appear in the same order as before.
   */
  function SortByKey<T>(xs: seq<T>, key: T -> int): (r: seq<T>)
    ensures SortedByKey(r, key) && multiset(r) == multiset(xs)
    ensures forall k :: Select(r, key, k) == Select(xs, key, k)
  {
    if xs == [] then []
    else
      var rest := SortByKey(xs[1..], key);
      assert xs == [xs[0]] + xs[1..];
      SortByKeyStep(xs[0], xs[1..], rest, key);
      InsertByKey(xs[0], rest, key)
  }
}
