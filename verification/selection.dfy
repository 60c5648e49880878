/** Choosing the winning entry of a matcher. The gateway collects the
    entries whose predicate holds, sorts them by ascending priority with
    `Array.prototype.sort` (stable since ES2019) and takes the first. The
    model computes the same winner in one linear pass (`FirstMin`) and
    proves it equal to the head of a stable sort (`SortByKey`). */
module Selection {
  import opened Wrappers

  // ---------------------------------------------------------------------
  // The linear reduction
  // ---------------------------------------------------------------------

  /** Position i holds the winner: it passes `ok`, no passing element has
      a smaller key, and every passing element before it has a strictly
      greater key (ties go to the earliest). */
  predicate IsFirstMin<T>(xs: seq<T>, ok: T -> bool, key: T -> int, i: nat) {
    && i < |xs| && ok(xs[i])
    && (forall j | 0 <= j < |xs| && ok(xs[j]) :: key(xs[i]) <= key(xs[j]))
    && (forall j | 0 <= j < i && ok(xs[j]) :: key(xs[i]) < key(xs[j]))
  }

  function FirstMin<T>(xs: seq<T>, ok: T -> bool, key: T -> int): (r: Option<nat>)
    ensures r.None? <==> forall j | 0 <= j < |xs| :: !ok(xs[j])
    ensures r.Some? ==> IsFirstMin(xs, ok, key, r.value)
    decreases |xs|
  {
    if |xs| == 0 then None
    else
      var rest := FirstMin(xs[1..], ok, key);
      if ok(xs[0]) && (rest.None? || key(xs[0]) <= key(xs[1..][rest.value])) then Some(0)
      else if rest.None? then None
      else Some(rest.value + 1)
  }

  /** The winner depends only on which elements pass and on their keys. */
  lemma {:induction false} FirstMinCongruent<A, B>(xs: seq<A>, okA: A -> bool, keyA: A -> int,
                                                   ys: seq<B>, okB: B -> bool, keyB: B -> int)
    requires |xs| == |ys|
    requires forall i | 0 <= i < |xs| :: okA(xs[i]) == okB(ys[i]) && keyA(xs[i]) == keyB(ys[i])
    ensures FirstMin(xs, okA, keyA) == FirstMin(ys, okB, keyB)
    decreases |xs|
  {
    if xs != [] {
      FirstMinCongruent(xs[1..], okA, keyA, ys[1..], okB, keyB);
    }
  }

  /** The winner is unique: the characterisation pins down one position. */
  lemma FirstMinUnique<T>(xs: seq<T>, ok: T -> bool, key: T -> int, i: nat, j: nat)
    requires IsFirstMin(xs, ok, key, i) && IsFirstMin(xs, ok, key, j)
    ensures i == j
  {
  }

  // ---------------------------------------------------------------------
  // The reference: filter, then stable sort, then take the head
  // ---------------------------------------------------------------------

  /** The elements passing `ok`, in order (the gateway's `matches.push`). */
  function Filter<T>(xs: seq<T>, ok: T -> bool): (ys: seq<T>)
    ensures |ys| <= |xs|
    ensures forall y | y in ys :: y in xs && ok(y)
    ensures forall x | x in xs && ok(x) :: x in ys
  {
    if xs == [] then []
    else if ok(xs[0]) then [xs[0]] + Filter(xs[1..], ok)
    else Filter(xs[1..], ok)
  }

  function MapSeq<A, B>(xs: seq<A>, g: A -> B): (ys: seq<B>)
    ensures |ys| == |xs|
    ensures forall i | 0 <= i < |xs| :: ys[i] == g(xs[i])
  {
    if xs == [] then [] else [g(xs[0])] + MapSeq(xs[1..], g)
  }

  /** Inserts x before the first element whose key is not smaller. */
  function Insert<T>(x: T, ys: seq<T>, key: T -> int): seq<T>
  {
    if ys == [] || key(x) <= key(ys[0]) then [x] + ys
    else [ys[0]] + Insert(x, ys[1..], key)
  }

  /** Insertion sort by ascending key. An earlier element is inserted into
      the sorted rest in front of every element with an equal key, so
      equal keys keep their input order. */
  function SortByKey<T>(xs: seq<T>, key: T -> int): seq<T>
  {
    if xs == [] then [] else Insert(xs[0], SortByKey(xs[1..], key), key)
  }

  predicate SortedBy<T>(xs: seq<T>, key: T -> int) {
    forall i, j | 0 <= i < j < |xs| :: key(xs[i]) <= key(xs[j])
  }

  /** The elements with key k, in order. */
  function WithKey<T>(xs: seq<T>, key: T -> int, k: int): seq<T>
  {
    if xs == [] then []
    else if key(xs[0]) == k then [xs[0]] + WithKey(xs[1..], key, k)
    else WithKey(xs[1..], key, k)
  }

  lemma {:induction false} InsertPermutes<T>(x: T, ys: seq<T>, key: T -> int)
    ensures multiset(Insert(x, ys, key)) == multiset(ys) + multiset{x}
    ensures Insert(x, ys, key) != []
    decreases |ys|
  {
    if ys != [] && key(x) > key(ys[0]) {
      InsertPermutes(x, ys[1..], key);
      assert ys == [ys[0]] + ys[1..];
    }
  }

  lemma InsertHead<T>(x: T, ys: seq<T>, key: T -> int)
    ensures Insert(x, ys, key)[0] == (if ys == [] || key(x) <= key(ys[0]) then x else ys[0])
  {
  }

  lemma {:induction false} InsertSorted<T>(x: T, ys: seq<T>, key: T -> int)
    requires SortedBy(ys, key)
    ensures SortedBy(Insert(x, ys, key), key)
    decreases |ys|
  {
    if ys != [] && key(x) > key(ys[0]) {
      var y := ys[0];
      var rest := Insert(x, ys[1..], key);
      InsertSorted(x, ys[1..], key);
      InsertPermutes(x, ys[1..], key);
      assert forall i | 0 <= i < |rest| :: key(y) <= key(rest[i]) by {
        forall i | 0 <= i < |rest| ensures key(y) <= key(rest[i]) {
          assert rest[i] in multiset(rest);
          assert rest[i] in multiset(ys[1..]) + multiset{x};
          if rest[i] != x {
            assert rest[i] in ys[1..];
          }
        }
      }
      assert Insert(x, ys, key) == [y] + rest;
    }
  }

  lemma {:induction false} InsertWithKey<T>(x: T, ys: seq<T>, key: T -> int, k: int)
    ensures WithKey(Insert(x, ys, key), key, k) == (if key(x) == k then [x] else []) + WithKey(ys, key, k)
    decreases |ys|
  {
    if ys == [] || key(x) <= key(ys[0]) {
      assert ([x] + ys)[1..] == ys;
    } else {
      var rest := Insert(x, ys[1..], key);
      InsertWithKey(x, ys[1..], key, k);
      assert ([ys[0]] + rest)[1..] == rest;
    }
  }

  /** `SortByKey` is a stable sort: ordered by key, a permutation of its
      input, and for every key the elements with that key appear in their
      input order. */
  lemma {:induction false} SortByKeyIsStableSort<T>(xs: seq<T>, key: T -> int)
    ensures SortedBy(SortByKey(xs, key), key)
    ensures multiset(SortByKey(xs, key)) == multiset(xs)
    ensures forall k :: WithKey(SortByKey(xs, key), key, k) == WithKey(xs, key, k)
    decreases |xs|
  {
    if xs != [] {
      var s := SortByKey(xs[1..], key);
      assert SortByKey(xs, key) == Insert(xs[0], s, key);
      SortByKeyIsStableSort(xs[1..], key);
      InsertPermutes(xs[0], s, key);
      InsertSorted(xs[0], s, key);
      assert xs == [xs[0]] + xs[1..];
      assert multiset(xs) == multiset(xs[1..]) + multiset{xs[0]};
      forall k ensures WithKey(SortByKey(xs, key), key, k) == WithKey(xs, key, k) {
        InsertWithKey(xs[0], s, key, k);
        assert WithKey(xs, key, k) == (if key(xs[0]) == k then [xs[0]] else []) + WithKey(xs[1..], key, k);
      }
    }
  }

  lemma {:induction false} SortByKeyEmpty<T>(xs: seq<T>, key: T -> int)
    ensures SortByKey(xs, key) == [] <==> xs == []
  {
    if xs != [] {
      InsertPermutes(xs[0], SortByKey(xs[1..], key), key);
    }
  }

  /** The linear reduction picks the head of the stable sort of the
      passing elements: the element the gateway's `matches[0]` holds. */
  lemma {:induction false} FirstMinIsSortHead<T>(xs: seq<T>, ok: T -> bool, key: T -> int)
    ensures FirstMin(xs, ok, key).None? <==> SortByKey(Filter(xs, ok), key) == []
    ensures FirstMin(xs, ok, key).Some? ==>
              SortByKey(Filter(xs, ok), key)[0] == xs[FirstMin(xs, ok, key).value]
    decreases |xs|
  {
    SortByKeyEmpty(Filter(xs, ok), key);
    if xs != [] {
      FirstMinIsSortHead(xs[1..], ok, key);
      var s := SortByKey(Filter(xs[1..], ok), key);
      SortByKeyEmpty(Filter(xs[1..], ok), key);
      if ok(xs[0]) {
        assert Filter(xs, ok) == [xs[0]] + Filter(xs[1..], ok);
        assert ([xs[0]] + Filter(xs[1..], ok))[1..] == Filter(xs[1..], ok);
        InsertHead(xs[0], s, key);
      } else {
        assert Filter(xs, ok) == Filter(xs[1..], ok);
      }
    }
  }

  /** Sorting the images of the elements under a map that keeps the key is
      mapping the sorted elements. */
  lemma {:induction false} SortMapCommute<A, B>(xs: seq<A>, g: A -> B, keyA: A -> int, keyB: B -> int)
    requires forall x :: keyB(g(x)) == keyA(x)
    ensures SortByKey(MapSeq(xs, g), keyB) == MapSeq(SortByKey(xs, keyA), g)
    decreases |xs|
  {
    if xs != [] {
      SortMapCommute(xs[1..], g, keyA, keyB);
      assert MapSeq(xs, g)[1..] == MapSeq(xs[1..], g);
      InsertMapCommute(xs[0], SortByKey(xs[1..], keyA), g, keyA, keyB);
    }
  }

  lemma {:induction false} InsertMapCommute<A, B>(x: A, ys: seq<A>, g: A -> B, keyA: A -> int, keyB: B -> int)
    requires forall x :: keyB(g(x)) == keyA(x)
    ensures Insert(g(x), MapSeq(ys, g), keyB) == MapSeq(Insert(x, ys, keyA), g)
    decreases |ys|
  {
    if ys != [] && keyA(x) > keyA(ys[0]) {
      InsertMapCommute(x, ys[1..], g, keyA, keyB);
      assert MapSeq(ys, g)[1..] == MapSeq(ys[1..], g);
      assert ([ys[0]] + Insert(x, ys[1..], keyA))[1..] == Insert(x, ys[1..], keyA);
    }
  }
}
