/** The array operations the source uses on lists of records, over sequences:
    `findIndex`, `indexOf`, `filter` by key, `map` on matching keys, sorting by a
    numeric column, `limit` and `reverse`. Keys are passed as named projection functions. */
module Lists {

  /** `s.findIndex(x => key(x) === k)`: the first position whose key is `k`, or -1. */
  function FindIndex<T, K(==)>(s: seq<T>, key: T -> K, k: K): (r: int)
    ensures -1 <= r < |s|
    ensures r == -1 <==> forall i :: 0 <= i < |s| ==> key(s[i]) != k
    ensures 0 <= r ==> key(s[r]) == k && forall i :: 0 <= i < r ==> key(s[i]) != k
  {
    if s == [] then -1
    else if key(s[0]) == k then 0
    else
      var j := FindIndex(s[1..], key, k);
      if j == -1 then -1 else j + 1
  }

  /** `s.indexOf(x)`: the first position holding `x`, or -1. */
  function IndexOf<T(==)>(s: seq<T>, x: T): (r: int)
    ensures -1 <= r < |s|
    ensures r == -1 <==> x !in s
    ensures 0 <= r ==> s[r] == x && x !in s[..r]
  {
    if s == [] then -1
    else if s[0] == x then 0
    else
      var j := IndexOf(s[1..], x);
      if j == -1 then -1 else assert s[..j + 1] == [s[0]] + s[1..][..j]; j + 1
  }

  /** A position holding `x` with no `x` before it is the one `indexOf` finds. */
  lemma IndexOfAt<T>(s: seq<T>, x: T, i: nat)
    requires i < |s| && s[i] == x && x !in s[..i]
    ensures IndexOf(s, x) == i
  {
  }

  /** `s.filter(x => key(x) !== k)`: every element whose key is not `k`, in order. */
  function Without<T(!new), K(==)>(s: seq<T>, key: T -> K, k: K): (r: seq<T>)
    ensures |r| <= |s|
  {
    if s == [] then []
    else if key(s[0]) == k then Without(s[1..], key, k)
    else [s[0]] + Without(s[1..], key, k)
  }

  /** What removing by key keeps: exactly the elements with another key. */
  lemma {:induction false} WithoutMembers<T(!new), K>(s: seq<T>, key: T -> K, k: K)
    ensures forall x :: x in Without(s, key, k) <==> x in s && key(x) != k
  {
    if s != [] {
      WithoutMembers(s[1..], key, k);
      assert s == [s[0]] + s[1..];
    }
  }

  /** Removing by key shortens the sequence exactly when some element has the key, and otherwise
      gives it back unchanged. */
  lemma {:induction false} WithoutLength<T(!new), K>(s: seq<T>, key: T -> K, k: K)
    ensures |Without(s, key, k)| == |s| <==> forall i :: 0 <= i < |s| ==> key(s[i]) != k
    ensures |Without(s, key, k)| == |s| ==> Without(s, key, k) == s
  {
    if s != [] {
      WithoutLength(s[1..], key, k);
      assert s == [s[0]] + s[1..];
    }
  }

  /** Removing by key from a sequence with a known first element. */
  lemma WithoutCons<T(!new), K>(x: T, rest: seq<T>, key: T -> K, k: K)
    ensures Without([x] + rest, key, k) == (if key(x) == k then [] else [x]) + Without(rest, key, k)
  {
    assert ([x] + rest)[0] == x && ([x] + rest)[1..] == rest;
  }

  /** Removing by key works piecewise, so the kept elements stay in their original order. */
  lemma {:induction false} WithoutConcat<T(!new), K>(a: seq<T>, b: seq<T>, key: T -> K, k: K)
    ensures Without(a + b, key, k) == Without(a, key, k) + Without(b, key, k)
  {
    if a == [] {
      assert a + b == b;
    } else {
      var c := a + b;
      var head := if key(a[0]) == k then [] else [a[0]];
      var A, B := Without(a[1..], key, k), Without(b, key, k);
      assert Without(c[1..], key, k) == A + B by {
        assert c[1..] == a[1..] + b;
        WithoutConcat(a[1..], b, key, k);
      }
      assert Without(c, key, k) == head + Without(c[1..], key, k) by {
        assert c[0] == a[0];
      }
      assert head + (A + B) == (head + A) + B;
    }
  }

  /** `s.filter(x => key(x) === k)`: every element whose key is `k`, in order. */
  function Only<T(!new), K(==)>(s: seq<T>, key: T -> K, k: K): (r: seq<T>)
    ensures forall x :: x in r <==> x in s && key(x) == k
    ensures |r| <= |s|
  {
    if s == [] then []
    else if key(s[0]) == k then [s[0]] + Only(s[1..], key, k)
    else Only(s[1..], key, k)
  }

  /** The filter keeps each element with key `k` exactly as often as `s` has it, and no other. */
  lemma {:induction false} OnlyCount<T(!new), K>(s: seq<T>, key: T -> K, k: K)
    ensures forall x :: multiset(Only(s, key, k))[x] == if key(x) == k then multiset(s)[x] else 0
  {
    if s != [] {
      OnlyCount(s[1..], key, k);
      OnlyCons(s[0], s[1..], key, k);
      assert s == [s[0]] + s[1..];
    }
  }

  /** Filtering a sequence with a known first element. */
  lemma OnlyCons<T(!new), K>(x: T, rest: seq<T>, key: T -> K, k: K)
    ensures Only([x] + rest, key, k) == (if key(x) == k then [x] else []) + Only(rest, key, k)
  {
    assert ([x] + rest)[0] == x && ([x] + rest)[1..] == rest;
  }

  /** Filtering works piecewise, so the kept elements stay in their original order. */
  lemma {:induction false} OnlyConcat<T(!new), K>(a: seq<T>, b: seq<T>, key: T -> K, k: K)
    ensures Only(a + b, key, k) == Only(a, key, k) + Only(b, key, k)
  {
    if a == [] {
      assert a + b == b;
    } else {
      var x, rest := a[0], a[1..];
      var head := if key(x) == k then [x] else [];
      assert a + b == [x] + (rest + b) && a == [x] + rest;
      calc {
        Only(a + b, key, k);
      == { OnlyCons(x, rest + b, key, k); }
        head + Only(rest + b, key, k);
      == { OnlyConcat(rest, b, key, k); }
        head + (Only(rest, key, k) + Only(b, key, k));
      ==
        (head + Only(rest, key, k)) + Only(b, key, k);
      == { OnlyCons(x, rest, key, k); }
        Only(a, key, k) + Only(b, key, k);
      }
    }
  }

  /** Keeping the entries with key `k` keeps everything when every entry has that key. */
  lemma {:induction false} OnlyAll<T(!new), K>(s: seq<T>, key: T -> K, k: K)
    requires forall i :: 0 <= i < |s| ==> key(s[i]) == k
    ensures Only(s, key, k) == s
  {
    if s != [] {
      OnlyAll(s[1..], key, k);
      assert [s[0]] + s[1..] == s;
    }
  }

  /** `s.map(x => key(x) === k ? f(x) : x)`. */
  function MapWhere<T, K(==)>(s: seq<T>, key: T -> K, k: K, f: T -> T): (r: seq<T>)
    ensures |r| == |s|
    ensures forall i :: 0 <= i < |s| ==> r[i] == if key(s[i]) == k then f(s[i]) else s[i]
  {
    if s == [] then [] else [if key(s[0]) == k then f(s[0]) else s[0]] + MapWhere(s[1..], key, k, f)
  }

  predicate SortedBy<T>(s: seq<T>, key: T -> int) {
    forall i, j :: 0 <= i < j < |s| ==> key(s[i]) <= key(s[j])
  }

  /** Puts `x` into a sorted sequence, after the elements whose key is smaller. */
  function Insert<T>(x: T, s: seq<T>, key: T -> int): (r: seq<T>)
    ensures |r| == |s| + 1
  {
    if s == [] then [x]
    else if key(x) <= key(s[0]) then [x] + s
    else [s[0]] + Insert(x, s[1..], key)
  }

  /** The tail of a sorted sequence is sorted. */
  lemma SortedTail<T>(s: seq<T>, key: T -> int)
    requires SortedBy(s, key) && s != []
    ensures SortedBy(s[1..], key)
    ensures forall i :: 0 <= i < |s[1..]| ==> key(s[0]) <= key(s[1..][i])
  {
    forall i | 0 <= i < |s[1..]| ensures key(s[0]) <= key(s[1..][i]) {
      assert s[1..][i] == s[i + 1];
    }
  }

  /** Insertion keeps a sequence sorted, and nothing in the result is below both `x` and the
      first element. */
  lemma {:induction false} InsertSorted<T>(x: T, s: seq<T>, key: T -> int)
    requires SortedBy(s, key)
    ensures SortedBy(Insert(x, s, key), key)
    ensures s != [] ==> forall i :: 0 <= i < |s| + 1 ==> key(Insert(x, s, key)[i]) >= Min(key(x), key(s[0]))
  {
    if s != [] {
      SortedTail(s, key);
      if key(x) <= key(s[0]) {
        SortedCons(x, s, key);
      } else {
        var t := Insert(x, s[1..], key);
        InsertSorted(x, s[1..], key);
        assert forall i :: 0 <= i < |t| ==> key(s[0]) <= key(t[i]) by {
          if s[1..] != [] {
            assert key(s[0]) <= key(s[1..][0]);
          }
        }
        SortedCons(s[0], t, key);
      }
    }
  }

  /** Insertion adds exactly `x` to the multiset of elements. */
  lemma {:induction false} InsertPermutes<T>(x: T, s: seq<T>, key: T -> int)
    ensures multiset(Insert(x, s, key)) == multiset(s) + multiset{x}
  {
    if s != [] {
      assert s == [s[0]] + s[1..];
      if key(x) > key(s[0]) {
        InsertPermutes(x, s[1..], key);
      }
    }
  }

  /** An element no greater than any of a sorted sequence can go in front of it. */
  lemma SortedCons<T>(y: T, t: seq<T>, key: T -> int)
    requires SortedBy(t, key) && forall i :: 0 <= i < |t| ==> key(y) <= key(t[i])
    ensures SortedBy([y] + t, key)
  {
    var r := [y] + t;
    forall i, j | 0 <= i < j < |r| ensures key(r[i]) <= key(r[j]) {
      assert r[j] == t[j - 1];
      if i > 0 {
        assert r[i] == t[i - 1];
      }
    }
  }

  function Min(a: int, b: int): int {
    if a <= b then a else b
  }

  /** `ORDER BY key` ascending: a sorted permutation of `s`. */
  function SortBy<T>(s: seq<T>, key: T -> int): (r: seq<T>)
    ensures |r| == |s|
    ensures SortedBy(r, key)
    ensures multiset(r) == multiset(s)
  {
    if s == [] then [] else
      var rest := SortBy(s[1..], key);
      InsertSorted(s[0], rest, key);
      InsertPermutes(s[0], rest, key);
      assert s == [s[0]] + s[1..];
      Insert(s[0], rest, key)
  }

  /** `LIMIT n`: the first `n` elements, or all of them. */
  function Take<T>(s: seq<T>, n: nat): (r: seq<T>)
    ensures |r| == if |s| < n then |s| else n
    ensures r == s[..|r|]
    ensures multiset(r) <= multiset(s)
  {
    if |s| <= n then s else
      assert s == s[..n] + s[n..];
      s[..n]
  }

  /** `s.reverse()`. */
  function Reverse<T>(s: seq<T>): (r: seq<T>)
    ensures |r| == |s|
    ensures forall i :: 0 <= i < |s| ==> r[i] == s[|s| - 1 - i]
    ensures multiset(r) == multiset(s)
  {
    if s == [] then [] else
      assert s == [s[0]] + s[1..];
      Reverse(s[1..]) + [s[0]]
  }

  /** Newest first: the order of `ORDER BY key DESC`. */
  predicate SortedDescBy<T>(s: seq<T>, key: T -> int) {
    forall i, j :: 0 <= i < j < |s| ==> key(s[i]) >= key(s[j])
  }

  lemma SortedPair<T>(s: seq<T>, key: T -> int, i: int, j: int)
    requires SortedBy(s, key) && 0 <= i <= j < |s|
    ensures key(s[i]) <= key(s[j])
  {
  }

  /** `sorted` is `s` in ascending order of `key`. */
  ghost predicate SortedPermutation<T>(sorted: seq<T>, s: seq<T>, key: T -> int) {
    |sorted| == |s| && SortedBy(sorted, key) && multiset(sorted) == multiset(s)
  }

  /** `r` reads `sorted` backwards from position `base`. */
  ghost predicate Mirrors<T>(r: seq<T>, sorted: seq<T>, base: int) {
    forall i :: 0 <= i < |r| ==> 0 <= base - i < |sorted| && r[i] == sorted[base - i]
  }

  /** Every element of `s` has a position in a sorted permutation of it. */
  lemma PositionIn<T>(sorted: seq<T>, s: seq<T>, key: T -> int, y: T) returns (j: nat)
    requires SortedPermutation(sorted, s, key) && y in s
    ensures j < |sorted| && sorted[j] == y
  {
    assert y in multiset(sorted);
    j :| 0 <= j < |sorted| && sorted[j] == y;
  }

  /** When `r` mirrors `sorted` from `base`, every position of that window is in `r`. */
  lemma MirroredIn<T>(sorted: seq<T>, r: seq<T>, base: int, j: int)
    requires Mirrors(r, sorted, base)
    requires 0 <= j < |sorted|
    ensures base - |r| < j <= base ==> sorted[j] in r
  {
    if base - |r| < j <= base {
      assert r[base - j] == sorted[j];
    }
  }

  /** Two entries of a mirrored window are in descending order. */
  lemma MirroredPair<T>(sorted: seq<T>, key: T -> int, r: seq<T>, base: int, i: int, j: int)
    requires SortedBy(sorted, key) && Mirrors(r, sorted, base) && 0 <= i < j < |r|
    ensures key(r[i]) >= key(r[j])
  {
    MirrorAt(r, sorted, base, i);
    MirrorAt(r, sorted, base, j);
    SortedPair(sorted, key, base - j, base - i);
  }

  lemma MirrorAt<T>(r: seq<T>, sorted: seq<T>, base: int, i: int)
    requires Mirrors(r, sorted, base) && 0 <= i < |r|
    ensures 0 <= base - i < |sorted| && r[i] == sorted[base - i]
  {
    assert r[i] in r;
  }

  /** The first `n` of the reversed order mirror the order from its last position. */
  lemma TakeOfReverseMirrors<T>(sorted: seq<T>, n: nat)
    ensures Mirrors(Take(Reverse(sorted), n), sorted, |sorted| - 1)
  {
    var v := Reverse(sorted);
    var r := Take(v, n);
    forall i | 0 <= i < |r| ensures 0 <= |sorted| - 1 - i < |sorted| && r[i] == sorted[|sorted| - 1 - i] {
      assert r[i] == v[i];
    }
  }

  /** The first `n` of the order, reversed, mirror it from the last position taken. */
  lemma ReverseOfTakeMirrors<T>(sorted: seq<T>, n: nat)
    ensures var r := Reverse(Take(sorted, n)); Mirrors(r, sorted, |r| - 1)
  {
    var t := Take(sorted, n);
    var r := Reverse(t);
    forall i | 0 <= i < |r| ensures 0 <= |r| - 1 - i < |sorted| && r[i] == sorted[|r| - 1 - i] {
      assert r[i] == t[|t| - 1 - i];
    }
  }

  /** A window of the sorted order read backwards is newest first and draws only on `s`. */
  lemma MirroredWindow<T>(sorted: seq<T>, s: seq<T>, key: T -> int, r: seq<T>, base: int)
    requires SortedPermutation(sorted, s, key) && Mirrors(r, sorted, base)
    ensures SortedDescBy(r, key)
    ensures forall x :: x in r ==> x in s
  {
    forall x | x in r ensures x in s {
      var i :| 0 <= i < |r| && r[i] == x;
      assert x in multiset(sorted);
    }
    forall i, j | 0 <= i < j < |r| ensures key(r[i]) >= key(r[j]) {
      MirroredPair(sorted, key, r, base, i, j);
    }
  }

  /** The window at the top of the sorted order leaves out nothing newer than it holds. */
  lemma TopWindow<T>(sorted: seq<T>, s: seq<T>, key: T -> int, r: seq<T>)
    requires SortedPermutation(sorted, s, key) && Mirrors(r, sorted, |s| - 1)
    ensures forall x, y :: x in r && y in s && y !in r ==> key(y) <= key(x)
  {
    forall x, y | x in r && y in s && y !in r ensures key(y) <= key(x) {
      var i :| 0 <= i < |r| && r[i] == x;
      var j := PositionIn(sorted, s, key, y);
      MirroredIn(sorted, r, |s| - 1, j);
      SortedPair(sorted, key, j, |s| - 1 - i);
    }
  }

  /** The window at the bottom of the sorted order leaves out nothing older than it holds. */
  lemma BottomWindow<T>(sorted: seq<T>, s: seq<T>, key: T -> int, r: seq<T>)
    requires SortedPermutation(sorted, s, key) && Mirrors(r, sorted, |r| - 1)
    ensures forall x, y :: x in r && y in s && y !in r ==> key(x) <= key(y)
  {
    forall x, y | x in r && y in s && y !in r ensures key(x) <= key(y) {
      var i :| 0 <= i < |r| && r[i] == x;
      var j := PositionIn(sorted, s, key, y);
      MirroredIn(sorted, r, |r| - 1, j);
      SortedPair(sorted, key, |r| - 1 - i, j);
    }
  }

  /** `ORDER BY key DESC LIMIT n`: at most `n` elements of `s`, each no more often than in `s`
      and all of `s` when it has no more than `n`, newest first; nothing left out is newer than
      anything returned. */
  lemma NewestFirst<T>(s: seq<T>, key: T -> int, n: nat)
    ensures var r := Take(Reverse(SortBy(s, key)), n);
      && |r| == (if |s| < n then |s| else n)
      && SortedDescBy(r, key)
      && (forall x :: x in r ==> x in s)
      && multiset(r) <= multiset(s)
      && (|s| <= n ==> multiset(r) == multiset(s))
      && (forall x, y :: x in r && y in s && y !in r ==> key(y) <= key(x))
  {
    var sorted := SortBy(s, key);
    var r := Take(Reverse(sorted), n);
    assert SortedPermutation(sorted, s, key);
    TakeOfReverseMirrors(sorted, n);
    MirroredWindow(sorted, s, key, r, |s| - 1);
    TopWindow(sorted, s, key, r);
  }

  /** `ORDER BY key LIMIT n` followed by `reverse()`: the at most `n` OLDEST elements of `s`,
      each no more often than in `s` and all of `s` when it has no more than `n`, the newest of
      them first; nothing left out is older than anything returned. */
  lemma OldestReversed<T>(s: seq<T>, key: T -> int, n: nat)
    ensures var r := Reverse(Take(SortBy(s, key), n));
      && |r| == (if |s| < n then |s| else n)
      && SortedDescBy(r, key)
      && (forall x :: x in r ==> x in s)
      && multiset(r) <= multiset(s)
      && (|s| <= n ==> multiset(r) == multiset(s))
      && (forall x, y :: x in r && y in s && y !in r ==> key(x) <= key(y))
  {
    var sorted := SortBy(s, key);
    var r := Reverse(Take(sorted, n));
    assert SortedPermutation(sorted, s, key);
    ReverseOfTakeMirrors(sorted, n);
    MirroredWindow(sorted, s, key, r, |r| - 1);
    BottomWindow(sorted, s, key, r);
  }

  /** With no more than `n` elements the limit cuts nothing, so both orderings give the same
      sequence: all of `s`, newest first. */
  lemma {:induction false} SmallListsAgree<T>(s: seq<T>, key: T -> int, n: nat)
    requires |s| <= n
    ensures Take(Reverse(SortBy(s, key)), n) == Reverse(Take(SortBy(s, key), n))
  {
  }
}
