/** A stable sort by a caller-supplied total preorder.  It stands for the
    library sorts the core relies on (`List.sort` with a comparator and
    `Stream.sorted()`), which are stable merge sorts: the model is ordered,
    a permutation of its input, and stable (elements the order does not
    tell apart keep their input order). */
module Sorting {

  /** `le(a, b)`: `a` may come before `b`.  Total and transitive. */
  ghost predicate TotalPreorder<T(!new)>(le: (T, T) -> bool)
  {
    && (forall a, b :: le(a, b) || le(b, a))
    && (forall a, b, c :: le(a, b) && le(b, c) ==> le(a, c))
  }

  predicate SortedBy<T>(s: seq<T>, le: (T, T) -> bool)
  {
    forall i, j :: 0 <= i < j < |s| ==> le(s[i], s[j])
  }

  /** Puts `x` in front of the first element it may precede. */
  function Insert<T>(x: T, s: seq<T>, le: (T, T) -> bool): seq<T>
  {
    if s == [] then [x]
    else if le(x, s[0]) then [x] + s
    else [s[0]] + Insert(x, s[1..], le)
  }

  function Sort<T>(s: seq<T>, le: (T, T) -> bool): seq<T>
  {
    if s == [] then [] else Insert(s[0], Sort(s[1..], le), le)
  }

  lemma {:induction false} InsertPermutes<T>(x: T, s: seq<T>, le: (T, T) -> bool)
    ensures multiset(Insert(x, s, le)) == multiset(s) + multiset{x}
  {
    if s == [] {
    } else if le(x, s[0]) {
      assert multiset([x] + s) == multiset{x} + multiset(s);
    } else {
      var r := Insert(x, s[1..], le);
      InsertPermutes(x, s[1..], le);
      assert s == [s[0]] + s[1..];
      assert multiset(s) == multiset{s[0]} + multiset(s[1..]);
      assert Insert(x, s, le) == [s[0]] + r;
      assert multiset([s[0]] + r) == multiset{s[0]} + multiset(r);
    }
  }

  lemma {:induction false} InsertSorted<T(!new)>(x: T, s: seq<T>, le: (T, T) -> bool)
    requires TotalPreorder(le)
    requires SortedBy(s, le)
    ensures SortedBy(Insert(x, s, le), le)
  {
    if s != [] && !le(x, s[0]) {
      InsertSorted(x, s[1..], le);
      InsertPermutes(x, s[1..], le);
      var r := Insert(x, s[1..], le);
      forall k | 0 <= k < |r| ensures le(s[0], r[k]) {
        assert r[k] in multiset(r);
        assert r[k] == x || r[k] in multiset(s[1..]);
        if r[k] != x {
          var m :| 0 <= m < |s[1..]| && s[1..][m] == r[k];
          assert s[1 + m] == r[k];
        }
      }
    }
  }

  /** The result is ordered by `le` ... */
  lemma {:induction false} SortSorted<T(!new)>(s: seq<T>, le: (T, T) -> bool)
    requires TotalPreorder(le)
    ensures SortedBy(Sort(s, le), le)
  {
    if s != [] {
      SortSorted(s[1..], le);
      InsertSorted(s[0], Sort(s[1..], le), le);
    }
  }

  /** ... and holds exactly the elements of the input, nothing added or dropped. */
  lemma {:induction false} SortPermutes<T>(s: seq<T>, le: (T, T) -> bool)
    ensures multiset(Sort(s, le)) == multiset(s)
    ensures |Sort(s, le)| == |s|
  {
    if s != [] {
      SortPermutes(s[1..], le);
      InsertPermutes(s[0], Sort(s[1..], le), le);
      assert s == [s[0]] + s[1..];
      assert multiset(s) == multiset(s[1..]) + multiset{s[0]};
    }
    assert |multiset(Sort(s, le))| == |multiset(s)|;
  }

  /** The elements of `s` that `le` cannot tell apart from `e`, in order. */
  function Tied<T>(s: seq<T>, e: T, le: (T, T) -> bool): seq<T>
  {
    if s == [] then []
    else (if le(s[0], e) && le(e, s[0]) then [s[0]] else []) + Tied(s[1..], e, le)
  }

  /** Inserting `x` that is not tied with `e` leaves the tied elements alone. */
  lemma {:induction false} InsertUntied<T>(x: T, s: seq<T>, e: T, le: (T, T) -> bool)
    requires !(le(x, e) && le(e, x))
    ensures Tied(Insert(x, s, le), e, le) == Tied(s, e, le)
  {
    if s != [] && !le(x, s[0]) {
      var rest := Insert(x, s[1..], le);
      InsertUntied(x, s[1..], e, le);
      assert ([s[0]] + rest)[1..] == rest;
    }
  }

  /** Inserting `x` tied with `e` puts it in front of the tied elements,
      since `x` may precede everything `e` may precede. */
  lemma {:induction false} InsertTied<T>(x: T, s: seq<T>, e: T, le: (T, T) -> bool)
    requires le(x, e) && le(e, x)
    requires forall y :: le(e, y) ==> le(x, y)
    ensures Tied(Insert(x, s, le), e, le) == [x] + Tied(s, e, le)
  {
    if s == [] {
    } else if le(x, s[0]) {
      assert ([x] + s)[1..] == s;
    } else {
      var rest := Insert(x, s[1..], le);
      InsertTied(x, s[1..], e, le);
      assert ([s[0]] + rest)[1..] == rest;
      assert !le(e, s[0]);
      assert Tied(s, e, le) == Tied(s[1..], e, le);
      assert Tied([s[0]] + rest, e, le) == Tied(rest, e, le);
    }
  }

  /** Inserting `x` puts it in front of every element tied with it. */
  lemma InsertStable<T(!new)>(x: T, s: seq<T>, e: T, le: (T, T) -> bool)
    requires TotalPreorder(le)
    ensures Tied(Insert(x, s, le), e, le)
            == (if le(x, e) && le(e, x) then [x] else []) + Tied(s, e, le)
  {
    if le(x, e) && le(e, x) {
      InsertTied(x, s, e, le);
    } else {
      InsertUntied(x, s, e, le);
    }
  }

  /** The sort is stable: the elements tied with any `e` come out in the
      order they went in. */
  lemma {:induction false} SortStable<T(!new)>(s: seq<T>, e: T, le: (T, T) -> bool)
    requires TotalPreorder(le)
    ensures Tied(Sort(s, le), e, le) == Tied(s, e, le)
  {
    if s != [] {
      SortStable(s[1..], e, le);
      InsertStable(s[0], Sort(s[1..], le), e, le);
    }
  }
}
