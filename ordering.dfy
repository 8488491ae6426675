/** The row orderings the queries ask of the database (`ORDER BY ...`).
    An ordering is a total preorder: ties are allowed and left in whatever
    order the engine picks, which is why the queries are specified by
    "sorted and exactly these rows" rather than by one fixed sequence. */
module Ordering {

  ghost predicate TotalPreorder<T(!new)>(leq: (T, T) -> bool) {
    && (forall x, y :: leq(x, y) || leq(y, x))
    && (forall x, y, z :: leq(x, y) && leq(y, z) ==> leq(x, z))
  }

  ghost predicate SortedBy<T>(s: seq<T>, leq: (T, T) -> bool) {
    forall i, j :: 0 <= i < j < |s| ==> leq(s[i], s[j])
  }

  /** `s` lists the rows of `rows`, each once, in an order `leq` allows. */
  ghost predicate IsListing<T(!new)>(s: seq<T>, rows: set<T>, leq: (T, T) -> bool) {
    && SortedBy(s, leq)
    && |s| == |rows|
    && (forall x :: x in s <==> x in rows)
  }

  /** Inserts `x` before the first element it may precede. */
  function Insert<T>(s: seq<T>, x: T, leq: (T, T) -> bool): (r: seq<T>)
    ensures multiset(r) == multiset(s) + multiset{x}
  {
    if s == [] then [x]
    else if leq(x, s[0]) then [x] + s
    else
      assert s == [s[0]] + s[1..];
      [s[0]] + Insert(s[1..], x, leq)
  }

  lemma {:induction false} InsertSorted<T(!new)>(s: seq<T>, x: T, leq: (T, T) -> bool)
    requires TotalPreorder(leq) && SortedBy(s, leq)
    ensures SortedBy(Insert(s, x, leq), leq)
  {
    if s == [] {
    } else if leq(x, s[0]) {
      forall j | 0 <= j < |s| ensures leq(x, s[j]) {
        if j > 0 { assert leq(s[0], s[j]); }
      }
    } else {
      assert leq(s[0], x);
      var rest := Insert(s[1..], x, leq);
      InsertSorted(s[1..], x, leq);
      forall i | 0 <= i < |rest| ensures leq(s[0], rest[i]) {
        assert rest[i] in multiset(rest);
        if rest[i] != x {
          assert rest[i] in multiset(s[1..]);
          var k :| 0 <= k < |s[1..]| && s[1..][k] == rest[i];
          assert leq(s[0], s[k + 1]);
        }
      }
    }
  }

  /** The rows of a result set in an order the engine may return them. */
  method SortSet<T(==, !new)>(s: set<T>, leq: (T, T) -> bool) returns (r: seq<T>)
    requires TotalPreorder(leq)
    ensures IsListing(r, s, leq)
  {
    r := [];
    var rest := s;
    while rest != {}
      invariant rest <= s
      invariant SortedBy(r, leq)
      invariant forall x :: x in r <==> x in s && x !in rest
      invariant |r| + |rest| == |s|
      decreases |rest|
    {
      var x :| x in rest;
      var r' := Insert(r, x, leq);
      InsertSorted(r, x, leq);
      assert forall y :: y in r' <==> y in multiset(r');
      r := r';
      rest := rest - {x};
    }
  }

  /** `LIMIT limit OFFSET offset` over an ordered result. */
  function Window<T>(s: seq<T>, offset: nat, limit: nat): (w: seq<T>)
    ensures |w| == if offset >= |s| then 0 else if offset + limit <= |s| then limit else |s| - offset
    ensures forall i :: 0 <= i < |w| ==> w[i] == s[offset + i]
  {
    if offset >= |s| then []
    else if offset + limit <= |s| then s[offset..offset + limit]
    else s[offset..]
  }

  function Reverse<T>(s: seq<T>): (r: seq<T>)
    ensures |r| == |s|
    ensures forall i :: 0 <= i < |s| ==> r[i] == s[|s| - 1 - i]
  {
    if s == [] then [] else Reverse(s[1..]) + [s[0]]
  }

  lemma ReverseSorted<T>(s: seq<T>, leq: (T, T) -> bool)
    requires SortedBy(s, leq)
    ensures SortedBy(Reverse(s), (a: T, b: T) => leq(b, a))
  {
  }
}
