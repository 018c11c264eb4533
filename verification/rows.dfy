/** Rows of the Messages and Images tables and the listing order
    `ORDER BY CreatedAt DESC, Id DESC` used by listMessages and listImages
    (db.js:178-181, 206-209). */
module Rows {

  type Timestamp = int

  /** One row: its IDENTITY `Id`, the owner column (`Username` in Messages,
      `username` in Images), the remaining columns, and `CreatedAt`. */
  datatype Row<P> = Row(id: int, owner: string, payload: P, createdAt: Timestamp)

  /** `a` sorts no later than `b` under CreatedAt DESC, Id DESC. */
  predicate NoOlder<P>(a: Row<P>, b: Row<P>) {
    a.createdAt > b.createdAt || (a.createdAt == b.createdAt && a.id >= b.id)
  }

  /** `a` sorts strictly before `b` under CreatedAt DESC, Id DESC. */
  predicate Newer<P>(a: Row<P>, b: Row<P>) {
    a.createdAt > b.createdAt || (a.createdAt == b.createdAt && a.id > b.id)
  }

  ghost predicate NewestFirst<P>(s: seq<Row<P>>) {
    forall i, j :: 0 <= i < j < |s| ==> NoOlder(s[i], s[j])
  }

  ghost predicate OldestFirst<P>(s: seq<Row<P>>) {
    forall i, j :: 0 <= i < j < |s| ==> NoOlder(s[j], s[i])
  }

  /** `WHERE owner = @username`, keeping the storage order. */
  function OwnedBy<P(==,!new)>(s: seq<Row<P>>, owner: string): (r: seq<Row<P>>)
    ensures forall x :: multiset(r)[x] == if x.owner == owner then multiset(s)[x] else 0
    ensures forall x :: x in r <==> x in s && x.owner == owner
    ensures |r| <= |s|
  {
    if |s| == 0 then []
    else
      assert s == [s[0]] + s[1..];
      if s[0].owner == owner then [s[0]] + OwnedBy(s[1..], owner) else OwnedBy(s[1..], owner)
  }

  /** Every row of a multiset-subsumed sequence is one of the originals. */
  lemma {:induction false} SubMultisetMembers<P>(a: seq<Row<P>>, b: seq<Row<P>>)
    requires multiset(a) <= multiset(b)
    ensures forall x :: x in a ==> x in b
  {
    forall x | x in a ensures x in b {
      assert x in multiset(a);
    }
  }

  /** Places `x` in a newest-first sequence. */
  function Insert<P(==)>(x: Row<P>, s: seq<Row<P>>): (r: seq<Row<P>>)
    requires NewestFirst(s)
    ensures multiset(r) == multiset(s) + multiset{x}
    ensures NewestFirst(r)
  {
    if |s| == 0 then [x]
    else if NoOlder(x, s[0]) then [x] + s
    else
      var rest := Insert(x, s[1..]);
      assert s == [s[0]] + s[1..];
      InsertHead(s[0], x, s[1..], rest);
      [s[0]] + rest
  }

  lemma {:induction false} InsertHead<P>(head: Row<P>, x: Row<P>, tail: seq<Row<P>>, rest: seq<Row<P>>)
    requires NewestFirst([head] + tail)
    requires !NoOlder(x, head)
    requires NewestFirst(rest)
    requires multiset(rest) == multiset(tail) + multiset{x}
    ensures NewestFirst([head] + rest)
  {
    var s := [head] + tail;
    forall k | 0 <= k < |rest| ensures NoOlder(head, rest[k]) {
      assert rest[k] in multiset(rest);
      if rest[k] != x {
        assert rest[k] in multiset(tail);
        var j :| 0 <= j < |tail| && tail[j] == rest[k];
        assert s[0] == head && s[j + 1] == rest[k];
      }
    }
    var r := [head] + rest;
    forall i, j | 0 <= i < j < |r| ensures NoOlder(r[i], r[j]) {
      if i > 0 {
        assert r[i] == rest[i - 1] && r[j] == rest[j - 1];
      }
    }
  }

  /** The rows in listing order, newest first. */
  function SortNewestFirst<P(==)>(s: seq<Row<P>>): (r: seq<Row<P>>)
    ensures multiset(r) == multiset(s)
    ensures |r| == |s|
    ensures NewestFirst(r)
  {
    if |s| == 0 then []
    else
      assert s == [s[0]] + s[1..];
      var r := Insert(s[0], SortNewestFirst(s[1..]));
      assert |r| == |multiset(r)|;
      r
  }

  function Min(a: nat, b: nat): nat {
    if a <= b then a else b
  }

  /** The first `n` rows (all of them when there are fewer). */
  function Take<P>(s: seq<Row<P>>, n: nat): (r: seq<Row<P>>)
    ensures |r| == Min(n, |s|)
    ensures r == s[..|r|]
  {
    if n < |s| then s[..n] else s
  }

  /** `SELECT TOP (@n) ... WHERE owner = @username ORDER BY CreatedAt DESC, Id DESC`:
      the `n` newest rows of `owner`, newest first. */
  function Top<P(==,!new)>(s: seq<Row<P>>, owner: string, n: nat): (r: seq<Row<P>>)
    ensures |r| == Min(n, |OwnedBy(s, owner)|)
    ensures NewestFirst(r)
    ensures multiset(r) <= multiset(s)
    ensures forall x :: x in r ==> x in s && x.owner == owner
    // nothing of `owner` that sorts before a returned row is left out
    ensures forall x, y :: x in r && y in s && y.owner == owner && Newer(y, x) ==> y in r
  {
    var owned := OwnedBy(s, owner);
    var sorted := SortNewestFirst(owned);
    var r := Take(sorted, n);
    TopFacts(s, owned, sorted, |r|);
    r
  }

  lemma {:induction false} TopFacts<P>(s: seq<Row<P>>, owned: seq<Row<P>>, sorted: seq<Row<P>>, m: nat)
    requires multiset(owned) <= multiset(s)
    requires multiset(sorted) == multiset(owned)
    requires NewestFirst(sorted)
    requires m <= |sorted|
    ensures NewestFirst(sorted[..m])
    ensures multiset(sorted[..m]) <= multiset(s)
    ensures forall x :: x in sorted[..m] ==> x in owned
    ensures forall x, y :: x in sorted[..m] && y in owned && Newer(y, x) ==> y in sorted[..m]
  {
    var r := sorted[..m];
    assert sorted == r + sorted[m..];
    assert multiset(r) <= multiset(sorted);
    SubMultisetMembers(r, owned);
    SubMultisetMembers(owned, sorted);
    PrefixKeepsNewer(sorted, m);
  }

  /** In a newest-first sequence, a prefix holds everything that sorts
      strictly before any of its rows. */
  lemma {:induction false} PrefixKeepsNewer<P>(s: seq<Row<P>>, m: nat)
    requires NewestFirst(s)
    requires m <= |s|
    ensures forall x, y :: x in s[..m] && y in s && Newer(y, x) ==> y in s[..m]
  {
    forall x, y | x in s[..m] && y in s && Newer(y, x) ensures y in s[..m] {
      var i :| 0 <= i < m && s[..m][i] == x;
      var j :| 0 <= j < |s| && s[j] == y;
      assert j < m;
      assert s[..m][j] == y;
    }
  }

  /** `recordset.reverse()`. */
  function Reverse<P>(s: seq<Row<P>>): (r: seq<Row<P>>)
    ensures |r| == |s|
    ensures forall i :: 0 <= i < |s| ==> r[i] == s[|s| - 1 - i]
  {
    if |s| == 0 then [] else Reverse(s[1..]) + [s[0]]
  }

  /** Reversal turns newest-first into oldest-first and keeps the rows. */
  lemma {:induction false} ReverseNewestFirst<P>(s: seq<Row<P>>)
    requires NewestFirst(s)
    ensures OldestFirst(Reverse(s))
    ensures multiset(Reverse(s)) == multiset(s)
    ensures forall x :: x in Reverse(s) <==> x in s
  {
    var r := Reverse(s);
    forall i, j | 0 <= i < j < |r| ensures NoOlder(r[j], r[i]) {
      assert r[i] == s[|s| - 1 - i] && r[j] == s[|s| - 1 - j];
    }
    ReverseMultiset(s);
    forall x ensures x in r <==> x in s {
      assert x in r <==> x in multiset(r);
    }
  }

  lemma {:induction false} ReverseMultiset<P>(s: seq<Row<P>>)
    ensures multiset(Reverse(s)) == multiset(s)
  {
    if |s| > 0 {
      ReverseMultiset(s[1..]);
      assert Reverse(s) == Reverse(s[1..]) + [s[0]];
      assert s == [s[0]] + s[1..];
    }
  }
}
