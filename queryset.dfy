/**
 The part of the object-relational mapper's query interface that the blog's
 views rely on, stated over in-memory tables (sequences of rows, in storage
 order): `filter`, `order_by`, slicing and `get`, together with the exceptions
 they raise.
 */
module QuerySets {

  /** A nullable column (a foreign key with `null=True`). */
  datatype Option<+T> = None | Some(value: T)

  /** The framework exceptions that the modelled code can end in. */
  datatype Error =
    | DoesNotExist            // `get` found no row
    | MultipleObjectsReturned // `get` found more than one row
    | Http404                 // the view answers "not found"
    | IntegrityError          // the database refused a write

  datatype Result<+T> = Ok(value: T) | Err(error: Error)

  /** `le` orders every pair of values and is transitive: a valid sort key. */
  ghost predicate TotalPreorder<T(!new)>(le: (T, T) -> bool) {
    && (forall x, y :: le(x, y) || le(y, x))
    && (forall x, y, z :: le(x, y) && le(y, z) ==> le(x, z))
  }

  /** Every earlier row comes before-or-level with every later row. */
  predicate SortedBy<T>(s: seq<T>, le: (T, T) -> bool) {
    forall i, j :: 0 <= i < j < |s| ==> le(s[i], s[j])
  }

  /** `queryset.filter(...)`: the rows that satisfy `keep`, in storage order. */
  function Filter<T(!new)>(s: seq<T>, keep: T -> bool): (r: seq<T>)
    ensures forall x :: x in r <==> x in s && keep(x)
    ensures forall x :: multiset(r)[x] == if keep(x) then multiset(s)[x] else 0
    ensures |r| <= |s|
  {
    if s == [] then []
    else
      var rest := Filter(s[1..], keep);
      assert s == [s[0]] + s[1..];
      if keep(s[0]) then [s[0]] + rest else rest
  }

  /** No two rows share a value of `key` (a primary key or a `unique=True` column). */
  predicate UniqueBy<T, K(==)>(s: seq<T>, key: T -> K) {
    forall i, j :: 0 <= i < j < |s| ==> key(s[i]) != key(s[j])
  }

  /** Putting a row in front of a unique table keeps it unique if its key is new. */
  lemma PrependKeepsUnique<T, K>(x: T, s: seq<T>, key: T -> K)
    requires UniqueBy(s, key)
    requires forall y :: y in s ==> key(y) != key(x)
    ensures UniqueBy([x] + s, key)
  {
    var r := [x] + s;
    forall i, j | 0 <= i < j < |r| ensures key(r[i]) != key(r[j]) {
      assert r[j] == s[j - 1] && r[j] in s;
      if i > 0 {
        assert r[i] == s[i - 1];
      }
    }
  }

  /** A column that is unique in a table stays unique in any filtered view of it. */
  lemma {:induction false} FilterKeepsUnique<T(!new), K>(s: seq<T>, keep: T -> bool, key: T -> K)
    ensures UniqueBy(s, key) ==> UniqueBy(Filter(s, keep), key)
  {
    if s != [] && UniqueBy(s, key) {
      var tail := s[1..];
      assert UniqueBy(tail, key) by {
        forall i, j | 0 <= i < j < |tail| ensures key(tail[i]) != key(tail[j]) {
          assert tail[i] == s[i + 1] && tail[j] == s[j + 1];
        }
      }
      FilterKeepsUnique(tail, keep, key);
      var rest := Filter(tail, keep);
      if keep(s[0]) {
        forall y | y in rest ensures key(y) != key(s[0]) {
          var k :| 0 <= k < |tail| && tail[k] == y;
          assert s[k + 1] == y;
        }
        PrependKeepsUnique(s[0], rest, key);
        assert Filter(s, keep) == [s[0]] + rest;
      } else {
        assert Filter(s, keep) == rest;
      }
    }
  }

  lemma FilterIsPartOf<T(!new)>(s: seq<T>, keep: T -> bool)
    ensures multiset(Filter(s, keep)) <= multiset(s)
  {
    var r := Filter(s, keep);
    forall x ensures multiset(r)[x] <= multiset(s)[x] {}
  }

  /** Putting a row in front of a sorted table keeps it sorted if it may precede every row. */
  lemma PrependKeepsSorted<T>(x: T, s: seq<T>, le: (T, T) -> bool)
    requires SortedBy(s, le)
    requires forall y :: y in s ==> le(x, y)
    ensures SortedBy([x] + s, le)
  {
    var r := [x] + s;
    forall i, j | 0 <= i < j < |r| ensures le(r[i], r[j]) {
      assert r[j] == s[j - 1] && r[j] in s;
      if i > 0 {
        assert r[i] == s[i - 1];
      }
    }
  }

  /** Places `x` in front of the first row it may precede; ties keep `x` first. */
  function Insert<T(!new)>(x: T, s: seq<T>, le: (T, T) -> bool): (r: seq<T>)
    requires TotalPreorder(le) && SortedBy(s, le)
    ensures SortedBy(r, le)
    ensures multiset(r) == multiset(s) + multiset{x}
  {
    if s == [] || le(x, s[0]) then
      assert forall y :: y in s ==> le(x, y) by {
        forall y | y in s ensures le(x, y) {
          var k :| 0 <= k < |s| && s[k] == y;
          assert k == 0 || le(s[0], s[k]);
        }
      }
      PrependKeepsSorted(x, s, le);
      [x] + s
    else
      var rest := Insert(x, s[1..], le);
      assert s == [s[0]] + s[1..];
      assert forall y :: y in rest ==> le(s[0], y) by {
        forall y | y in rest ensures le(s[0], y) {
          assert y in multiset(rest);
          assert y == x || y in s[1..];
        }
      }
      PrependKeepsSorted(s[0], rest, le);
      [s[0]] + rest
  }

  /**
   `queryset.order_by(key)`: the same rows, sorted by `le`. The database
   leaves the order of tied rows open; this insertion sort happens to keep
   their storage order, and nothing here relies on that.
   */
  function OrderBy<T(!new)>(s: seq<T>, le: (T, T) -> bool): (r: seq<T>)
    requires TotalPreorder(le)
    ensures SortedBy(r, le)
    ensures multiset(r) == multiset(s)
  {
    if s == [] then []
    else
      assert s == [s[0]] + s[1..];
      Insert(s[0], OrderBy(s[1..], le), le)
  }

  /** `queryset[:n]`: the first `n` rows, or all of them when there are fewer. */
  function Slice<T>(s: seq<T>, n: nat): (r: seq<T>)
    ensures |r| == if |s| < n then |s| else n
    ensures r == s[..|r|]
  {
    if |s| <= n then s else s[..n]
  }

  /**
   A row of a sorted table is either in a slice of it, or the slice is full
   and every row in it may be listed before that row.
   */
  lemma SliceOfSorted<T>(s: seq<T>, le: (T, T) -> bool, n: nat, x: T)
    requires SortedBy(s, le) && x in s
    ensures || x in Slice(s, n)
            || (|Slice(s, n)| == n && forall y :: y in Slice(s, n) ==> le(y, x))
  {
    var k :| 0 <= k < |s| && s[k] == x;
    var r := Slice(s, n);
    if k < |r| {
      assert r[k] == x;
    } else {
      forall y | y in r ensures le(y, x) {
        var m :| 0 <= m < |r| && r[m] == y;
        assert s[m] == y;
      }
    }
  }

  lemma SliceIsPartOf<T>(s: seq<T>, n: nat)
    ensures multiset(Slice(s, n)) <= multiset(s)
  {
    var r := Slice(s, n);
    assert s == r + s[|r|..];
  }

  /**
   `queryset.filter(keep).order_by(le)[:n]`: rows that satisfy `keep`, in
   order, drawn from the table; a row that satisfies `keep` but is left out
   means the slice is full of rows that may be listed before it.
   */
  lemma TopRows<T(!new)>(s: seq<T>, keep: T -> bool, le: (T, T) -> bool, n: nat)
    requires TotalPreorder(le)
    ensures var r := Slice(OrderBy(Filter(s, keep), le), n);
      && (forall x :: x in r ==> keep(x))
      && multiset(r) <= multiset(s)
      && SortedBy(r, le)
      && (forall x :: x in s && keep(x) && x !in r ==>
            |r| == n && forall y :: y in r ==> le(y, x))
  {
    var kept := Filter(s, keep);
    var ordered := OrderBy(kept, le);
    var r := Slice(ordered, n);
    forall x | x in r ensures keep(x) {
      assert x in ordered;
      assert x in multiset(kept);
    }
    SliceIsPartOf(ordered, n);
    FilterIsPartOf(s, keep);
    forall x | x in s && keep(x)
      ensures x in r || (|r| == n && forall y :: y in r ==> le(y, x))
    {
      assert x in multiset(ordered);
      SliceOfSorted(ordered, le, n, x);
    }
  }

  /** At most one row satisfies `lookup`. */
  predicate AtMostOne<T>(s: seq<T>, lookup: T -> bool) {
    forall i, j :: 0 <= i < j < |s| && lookup(s[i]) ==> !lookup(s[j])
  }

  /** At most one row of `s` matches: its head does not clash with its tail, nor the tail with itself. */
  lemma AtMostOneCons<T>(s: seq<T>, lookup: T -> bool)
    requires s != []
    ensures AtMostOne(s, lookup) <==>
      && (lookup(s[0]) ==> forall y :: y in s[1..] ==> !lookup(y))
      && AtMostOne(s[1..], lookup)
  {
    var tail := s[1..];
    if AtMostOne(s, lookup) {
      forall i, j | 0 <= i < j < |tail| && lookup(tail[i]) ensures !lookup(tail[j]) {
        assert tail[i] == s[i + 1] && tail[j] == s[j + 1];
      }
      if lookup(s[0]) {
        forall y | y in tail ensures !lookup(y) {
          var k :| 0 <= k < |tail| && tail[k] == y;
          assert s[k + 1] == y;
        }
      }
    } else {
      var i, j :| 0 <= i < j < |s| && lookup(s[i]) && lookup(s[j]);
      assert s[j] == tail[j - 1];
      if i > 0 {
        assert s[i] == tail[i - 1];
      }
    }
  }

  lemma {:induction false} FilterAtMostOne<T(!new)>(s: seq<T>, lookup: T -> bool)
    ensures |Filter(s, lookup)| <= 1 <==> AtMostOne(s, lookup)
  {
    if s != [] {
      var tail := s[1..];
      FilterAtMostOne(tail, lookup);
      AtMostOneCons(s, lookup);
      var rest := Filter(tail, lookup);
      if lookup(s[0]) {
        assert Filter(s, lookup) == [s[0]] + rest;
        if |rest| > 0 {
          assert rest[0] in rest;
        }
      } else {
        assert Filter(s, lookup) == rest;
      }
    }
  }

  /**
   `queryset.get(...)`: the single row that satisfies `lookup`; DoesNotExist
   when there is none and MultipleObjectsReturned when there are several.
   */
  function Get<T(!new)>(s: seq<T>, lookup: T -> bool): (r: Result<T>)
    ensures r == Err(DoesNotExist) <==> forall x :: x in s ==> !lookup(x)
    ensures r == Err(MultipleObjectsReturned) <==> !AtMostOne(s, lookup)
    ensures r.Err? ==> r.error in {DoesNotExist, MultipleObjectsReturned}
    ensures r.Ok? ==> r.value in s && lookup(r.value)
    ensures r.Ok? ==> forall x :: x in s && lookup(x) ==> x == r.value
  {
    var found := Filter(s, lookup);
    FilterAtMostOne(s, lookup);
    if |found| == 0 then Err(DoesNotExist)
    else if |found| == 1 then
      assert forall x :: x in s && lookup(x) ==> x in found;
      Ok(found[0])
    else
      assert found[0] in found;
      Err(MultipleObjectsReturned)
  }

  /** `get_object_or_404(...)`: like `get`, but a missing row is a 404. */
  function GetOr404<T(!new)>(s: seq<T>, lookup: T -> bool): (r: Result<T>)
    ensures r == Err(Http404) <==> forall x :: x in s ==> !lookup(x)
    ensures r == Err(MultipleObjectsReturned) <==> !AtMostOne(s, lookup)
    ensures r.Err? ==> r.error in {Http404, MultipleObjectsReturned}
    ensures r.Ok? ==> r.value in s && lookup(r.value)
    ensures r.Ok? ==> forall x :: x in s && lookup(x) ==> x == r.value
  {
    match Get(s, lookup)
    case Err(DoesNotExist) => Err(Http404)
    case other => other
  }
}
