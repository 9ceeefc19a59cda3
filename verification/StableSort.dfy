/** Stable sorting by a strict weak order: what it means, that it determines its result, and
    the in-place insertion sort by adjacent swaps. */
module StableSort {

  ghost predicate StrictWeakOrder<T(!new)>(less: (T, T) -> bool) {
    && (forall x :: !less(x, x))
    && (forall x, y, z :: less(x, y) && less(y, z) ==> less(x, z))
    && (forall x, y, z :: Equivalent(less, x, y) && Equivalent(less, y, z) ==> Equivalent(less, x, z))
  }

  predicate Equivalent<T>(less: (T, T) -> bool, x: T, y: T) {
    !less(x, y) && !less(y, x)
  }

  ghost predicate Sorted<T>(less: (T, T) -> bool, s: seq<T>) {
    forall i, j :: 0 <= i < j < |s| ==> !less(s[j], s[i])
  }

  /** The elements equivalent to `x`, in order. */
  function Peers<T>(less: (T, T) -> bool, x: T, s: seq<T>): seq<T> {
    if s == [] then []
    else (if Equivalent(less, x, s[0]) then [s[0]] else []) + Peers(less, x, s[1..])
  }

  /** Equivalent elements are the same and in the same order; hence `r` permutes `s`. */
  ghost predicate SamePeers<T(!new)>(less: (T, T) -> bool, s: seq<T>, r: seq<T>) {
    forall x :: Peers(less, x, s) == Peers(less, x, r)
  }

  ghost predicate StablySorted<T(!new)>(less: (T, T) -> bool, s: seq<T>, r: seq<T>) {
    Sorted(less, r) && SamePeers(less, s, r)
  }

  lemma {:induction false} PeersSplit<T>(less: (T, T) -> bool, x: T, a: seq<T>, b: seq<T>)
    ensures Peers(less, x, a + b) == Peers(less, x, a) + Peers(less, x, b)
  {
    if a == [] {
      assert a + b == b;
    } else {
      var head := if Equivalent(less, x, a[0]) then [a[0]] else [];
      assert (a + b)[0] == a[0] && (a + b)[1..] == a[1..] + b;
      PeersSplit(less, x, a[1..], b);
      assert Peers(less, x, a + b) == head + (Peers(less, x, a[1..]) + Peers(less, x, b));
      assert Peers(less, x, a) == head + Peers(less, x, a[1..]);
    }
  }

  lemma {:induction false} PeersAreMembers<T>(less: (T, T) -> bool, x: T, y: T, s: seq<T>)
    ensures y in Peers(less, x, s) <==> y in s && Equivalent(less, x, y)
  {
    if s != [] {
      PeersAreMembers(less, x, y, s[1..]);
    }
  }

  /** A stable sort only rearranges. */
  lemma SamePeersSameMembers<T(!new)>(less: (T, T) -> bool, s: seq<T>, r: seq<T>, x: T)
    requires StrictWeakOrder(less) && SamePeers(less, s, r)
    ensures x in s <==> x in r
  {
    PeersAreMembers(less, x, x, s);
    PeersAreMembers(less, x, x, r);
    assert Peers(less, x, s) == Peers(less, x, r);
  }

  /** Two sorted arrangements of the same elements start alike. */
  lemma SameHead<T(!new)>(less: (T, T) -> bool, r: seq<T>, r': seq<T>)
    requires StrictWeakOrder(less) && Sorted(less, r) && Sorted(less, r') && SamePeers(less, r, r')
    requires r != [] && r' != []
    ensures r[0] == r'[0]
  {
    var x, y := r[0], r'[0];
    SamePeersSameMembers(less, r, r', x);
    SamePeersSameMembers(less, r, r', y);
    var i :| 0 <= i < |r| && r[i] == y;
    var j :| 0 <= j < |r'| && r'[j] == x;
    assert Equivalent(less, x, y);
    assert Peers(less, x, r)[0] == x;
    assert Peers(less, x, r')[0] == y;
    assert Peers(less, x, r) == Peers(less, x, r');
  }

  /** The result of a stable sort is unique, whatever the algorithm. */
  lemma {:induction false} SortedIsUnique<T(!new)>(less: (T, T) -> bool, r: seq<T>, r': seq<T>)
    requires StrictWeakOrder(less) && Sorted(less, r) && Sorted(less, r') && SamePeers(less, r, r')
    ensures r == r'
  {
    if r != [] { SamePeersSameMembers(less, r, r', r[0]); }
    if r' != [] { SamePeersSameMembers(less, r, r', r'[0]); }
    if r != [] && r' != [] {
      SameHead(less, r, r');
      forall x ensures Peers(less, x, r[1..]) == Peers(less, x, r'[1..]) {
        var head := if Equivalent(less, x, r[0]) then [r[0]] else [];
        assert Peers(less, x, r) == Peers(less, x, r');
        assert Peers(less, x, r)[|head|..] == Peers(less, x, r[1..]);
        assert Peers(less, x, r')[|head|..] == Peers(less, x, r'[1..]);
      }
      SortedIsUnique(less, r[1..], r'[1..]);
    }
  }

  // ----------------------------------------------------------- a reference sort

  /** Before the first element that is not smaller. */
  function Insert<T>(less: (T, T) -> bool, x: T, s: seq<T>): seq<T> {
    if s != [] && less(s[0], x) then [s[0]] + Insert(less, x, s[1..]) else [x] + s
  }

  function Sort<T>(less: (T, T) -> bool, s: seq<T>): seq<T> {
    if s == [] then [] else Insert(less, s[0], Sort(less, s[1..]))
  }

  lemma {:induction false} InsertMembers<T>(less: (T, T) -> bool, x: T, s: seq<T>, y: T)
    ensures y in Insert(less, x, s) <==> y == x || y in s
  {
    if s != [] && less(s[0], x) {
      InsertMembers(less, x, s[1..], y);
    }
  }

  lemma {:induction false} InsertSorts<T(!new)>(less: (T, T) -> bool, x: T, s: seq<T>)
    requires StrictWeakOrder(less) && Sorted(less, s)
    ensures Sorted(less, Insert(less, x, s))
  {
    var r := Insert(less, x, s);
    if s != [] && less(s[0], x) {
      InsertSorts(less, x, s[1..]);
      forall j | 0 < j < |r| ensures !less(r[j], r[0]) {
        assert r[j] in Insert(less, x, s[1..]);
        InsertMembers(less, x, s[1..], r[j]);
        if r[j] in s[1..] {
          var k :| 0 <= k < |s[1..]| && s[1..][k] == r[j];
          assert s[k + 1] == r[j];
        }
      }
    } else {
      forall j | 0 < j < |r| ensures !less(r[j], r[0]) {
        NotSmaller(less, x, s, j - 1);
      }
    }
  }

  lemma NotSmaller<T(!new)>(less: (T, T) -> bool, x: T, s: seq<T>, k: nat)
    requires StrictWeakOrder(less) && Sorted(less, s) && k < |s| && !less(s[0], x)
    ensures !less(s[k], x)
  {
    var a, b := s[0], s[k];
    assert !less(b, a);
    assert less(b, x) && less(x, a) ==> less(b, a);
    assert less(a, b) && less(b, x) ==> less(a, x);
    assert Equivalent(less, b, a) && Equivalent(less, a, x) ==> Equivalent(less, b, x);
  }

  /** Elements that are in order are in different classes. */
  lemma ClassesDiffer<T(!new)>(less: (T, T) -> bool, y: T, a: T, b: T)
    requires StrictWeakOrder(less) && less(a, b)
    ensures !(Equivalent(less, y, a) && Equivalent(less, y, b))
  {
    assert Equivalent(less, y, a) ==> Equivalent(less, a, y);
    assert Equivalent(less, a, y) && Equivalent(less, y, b) ==> Equivalent(less, a, b);
  }

  lemma {:induction false} InsertPeers<T(!new)>(less: (T, T) -> bool, x: T, s: seq<T>, y: T)
    requires StrictWeakOrder(less)
    ensures Peers(less, y, Insert(less, x, s)) == (if Equivalent(less, y, x) then [x] else []) + Peers(less, y, s)
  {
    if s != [] && less(s[0], x) {
      InsertPeers(less, x, s[1..], y);
      ClassesDiffer(less, y, s[0], x);
    } else {
      assert ([x] + s)[1..] == s;
    }
  }

  lemma {:induction false} SortIsStable<T(!new)>(less: (T, T) -> bool, s: seq<T>)
    requires StrictWeakOrder(less)
    ensures StablySorted(less, s, Sort(less, s))
  {
    if s != [] {
      SortIsStable(less, s[1..]);
      InsertSorts(less, s[0], Sort(less, s[1..]));
      forall x ensures Peers(less, x, s) == Peers(less, x, Sort(less, s)) {
        InsertPeers(less, s[0], Sort(less, s[1..]), x);
        assert Peers(less, x, s[1..]) == Peers(less, x, Sort(less, s[1..]));
      }
    }
  }

  lemma {:induction false} PeersCount<T(!new)>(less: (T, T) -> bool, x: T, s: seq<T>)
    requires Equivalent(less, x, x)
    ensures multiset(Peers(less, x, s))[x] == multiset(s)[x]
  {
    if s != [] {
      PeersCount(less, x, s[1..]);
      assert s == [s[0]] + s[1..];
    }
  }

  /** A stable sorted arrangement is a permutation. */
  lemma StablySortedPermutes<T(!new)>(less: (T, T) -> bool, s: seq<T>, r: seq<T>)
    requires StrictWeakOrder(less) && StablySorted(less, s, r)
    ensures multiset(r) == multiset(s)
  {
    forall x ensures multiset(r)[x] == multiset(s)[x] {
      assert Peers(less, x, s) == Peers(less, x, r);
      PeersCount(less, x, s);
      PeersCount(less, x, r);
    }
  }

  /** Only the order's verdicts on the elements matter. */
  lemma {:induction false} SortCongruence<T>(less: (T, T) -> bool, less': (T, T) -> bool, s: seq<T>)
    requires forall x, y :: x in s && y in s ==> less(x, y) == less'(x, y)
    ensures Sort(less, s) == Sort(less', s)
    ensures forall x :: x in Sort(less, s) ==> x in s
  {
    if s != [] {
      SortCongruence(less, less', s[1..]);
      var r := Sort(less, s[1..]);
      InsertCongruence(less, less', s[0], r);
      forall x | x in Sort(less, s) ensures x in s { InsertMembers(less, s[0], r, x); }
    }
  }

  lemma {:induction false} InsertCongruence<T>(less: (T, T) -> bool, less': (T, T) -> bool, x: T, s: seq<T>)
    requires forall y :: y in s ==> less(y, x) == less'(y, x)
    ensures Insert(less, x, s) == Insert(less', x, s)
  {
    if s != [] {
      assert s[0] in s;
      InsertCongruence(less, less', x, s[1..]);
    }
  }

  // ------------------------------------------------------------------ in place

  /** Swapping two neighbours that are out of order moves nothing past an equivalent. */
  lemma SwapKeepsPeers<T(!new)>(less: (T, T) -> bool, s: seq<T>, j: nat)
    requires 0 < j < |s| && less(s[j], s[j - 1]) && StrictWeakOrder(less)
    ensures SamePeers(less, s, s[j - 1 := s[j]][j := s[j - 1]])
  {
    var a, b, p, q := s[j - 1], s[j], s[..j - 1], s[j + 1..];
    assert s == p + ([a, b] + q) && s[j - 1 := b][j := a] == p + ([b, a] + q);
    forall x ensures Peers(less, x, s) == Peers(less, x, s[j - 1 := b][j := a]) {
      PeersSplit(less, x, p, [a, b] + q);
      PeersSplit(less, x, p, [b, a] + q);
      PeersSplit(less, x, [a, b], q);
      PeersSplit(less, x, [b, a], q);
      assert [a, b][1..] == [b] && [b, a][1..] == [a];
      ClassesDiffer(less, x, b, a);
    }
  }

  /** Every pair among the first `i` is in order, except pairs whose later element is at `j`. */
  ghost predicate SortedBut<T>(less: (T, T) -> bool, s: seq<T>, i: nat, j: nat)
    requires i <= |s|
  {
    forall k, m :: 0 <= k < m < i && m != j ==> !less(s[m], s[k])
  }

  method SortInPlace<T(!new)>(a: array<T>, less: (T, T) -> bool)
    requires StrictWeakOrder(less)
    modifies a
    ensures StablySorted(less, old(a[..]), a[..])
    ensures a[..] == Sort(less, old(a[..]))
  {
    var i := 0;
    while i < a.Length
      invariant 0 <= i <= a.Length
      invariant Sorted(less, a[..i]) && SamePeers(less, old(a[..]), a[..])
    {
      var j := i;
      while j > 0 && less(a[j], a[j - 1])
        invariant 0 <= j <= i
        invariant SortedBut(less, a[..], i + 1, j)
        invariant forall m :: j < m <= i ==> less(a[j], a[m])
        invariant SamePeers(less, old(a[..]), a[..])
      {
        ghost var s := a[..];
        SwapKeepsPeers(less, s, j);
        a[j - 1], a[j] := a[j], a[j - 1];
        assert a[..] == s[j - 1 := s[j]][j := s[j - 1]];
        j := j - 1;
      }
      Settled(less, a[..], i, j);
      i := i + 1;
    }
    assert a[..i] == a[..];
    SortIsStable(less, old(a[..]));
    SortedIsUnique(less, a[..], Sort(less, old(a[..])));
  }

  /** When the element at `j` is not below its left neighbour, it is below none before it. */
  lemma Settled<T(!new)>(less: (T, T) -> bool, s: seq<T>, i: nat, j: nat)
    requires StrictWeakOrder(less) && j <= i < |s| && SortedBut(less, s, i + 1, j)
    requires j > 0 ==> !less(s[j], s[j - 1])
    ensures Sorted(less, s[..i + 1])
  {
    forall k | 0 <= k < j ensures !less(s[j], s[k]) {
      if k < j - 1 {
        NotAbove(less, s[k], s[j - 1], s[j]);
      }
    }
  }

  lemma NotAbove<T(!new)>(less: (T, T) -> bool, x: T, y: T, z: T)
    requires StrictWeakOrder(less) && !less(y, x) && !less(z, y)
    ensures !less(z, x)
  {
    NotSmaller(less, x, [y, z], 1);
  }
}
