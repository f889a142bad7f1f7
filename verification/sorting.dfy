/**
 * The two orderings the backend asks of the database: users newest first
 * (by creation time, descending) and roles by name (ascending). Both sorts are
 * stable insertion sorts, so rows with equal keys keep their storage order.
 */
module Sorting {
  import opened Entities

  predicate NewestFirst(xs: seq<User>) {
    forall i, j :: 0 <= i < j < |xs| ==> xs[i].createdAt >= xs[j].createdAt
  }

  /** Every slice of a newest-first list is newest first and drawn from the list. */
  lemma SliceNewestFirst(xs: seq<User>, lo: int, hi: int)
    requires NewestFirst(xs) && 0 <= lo <= hi <= |xs|
    ensures NewestFirst(xs[lo..hi])
    ensures forall u :: u in xs[lo..hi] ==> u in xs
  {
    var w := xs[lo..hi];
    forall i, j | 0 <= i < j < |w| ensures w[i].createdAt >= w[j].createdAt {
      assert w[i] == xs[lo + i] && w[j] == xs[lo + j];
    }
  }

  /** After inserting an older row into the tail, the head is still the newest. */
  lemma HeadBoundNewest(xs: seq<User>, rest: seq<User>, u: User)
    requires NewestFirst(xs) && |xs| > 0
    requires u.createdAt < xs[0].createdAt
    requires multiset(rest) == multiset(xs[1..]) + multiset{u}
    ensures forall k :: 0 <= k < |rest| ==> rest[k].createdAt <= xs[0].createdAt
  {
    forall k | 0 <= k < |rest| ensures rest[k].createdAt <= xs[0].createdAt {
      assert rest[k] in multiset(rest);
      if rest[k] != u {
        assert rest[k] in multiset(xs[1..]);
        var m :| 0 <= m < |xs[1..]| && xs[1..][m] == rest[k];
        assert xs[m + 1] == rest[k];
      }
    }
  }

  function InsertNewest(u: User, xs: seq<User>): (r: seq<User>)
    requires NewestFirst(xs)
    ensures NewestFirst(r)
    ensures multiset(r) == multiset(xs) + multiset{u}
  {
    if |xs| == 0 then [u]
    else if xs[0].createdAt <= u.createdAt then [u] + xs
    else
      var rest := InsertNewest(u, xs[1..]);
      assert xs == [xs[0]] + xs[1..];
      HeadBoundNewest(xs, rest, u);
      [xs[0]] + rest
  }

  /** `OrderByDescending(u => u.CreatedAt)`: a permutation of the rows, newest first. */
  function SortNewestFirst(xs: seq<User>): (r: seq<User>)
    ensures NewestFirst(r)
    ensures multiset(r) == multiset(xs)
    ensures |r| == |xs|
  {
    if |xs| == 0 then []
    else
      assert xs == [xs[0]] + xs[1..];
      InsertNewest(xs[0], SortNewestFirst(xs[1..]))
  }

  /** Ordinal string order: a proper prefix comes first, otherwise the first differing character decides. */
  predicate NameLeq(a: string, b: string)
    decreases |a|
  {
    |a| == 0 || (|b| > 0 && (a[0] < b[0] || (a[0] == b[0] && NameLeq(a[1..], b[1..]))))
  }

  lemma {:induction false} NameLeqTotal(a: string, b: string)
    ensures NameLeq(a, b) || NameLeq(b, a)
    decreases |a|
  {
    if |a| > 0 && |b| > 0 && a[0] == b[0] {
      NameLeqTotal(a[1..], b[1..]);
    }
  }

  lemma {:induction false} NameLeqTransitive(a: string, b: string, c: string)
    requires NameLeq(a, b) && NameLeq(b, c)
    ensures NameLeq(a, c)
    decreases |a|
  {
    if |a| > 0 && a[0] == b[0] && b[0] == c[0] {
      NameLeqTransitive(a[1..], b[1..], c[1..]);
    }
  }

  predicate ByName(xs: seq<Role>) {
    forall i, j :: 0 <= i < j < |xs| ==> NameLeq(xs[i].name, xs[j].name)
  }

  /** After inserting a later name into the tail, the head still comes first. */
  lemma HeadBoundByName(xs: seq<Role>, rest: seq<Role>, r: Role)
    requires ByName(xs) && |xs| > 0
    requires NameLeq(xs[0].name, r.name)
    requires multiset(rest) == multiset(xs[1..]) + multiset{r}
    ensures forall k :: 0 <= k < |rest| ==> NameLeq(xs[0].name, rest[k].name)
  {
    forall k | 0 <= k < |rest| ensures NameLeq(xs[0].name, rest[k].name) {
      assert rest[k] in multiset(rest);
      if rest[k] != r {
        assert rest[k] in multiset(xs[1..]);
        var m :| 0 <= m < |xs[1..]| && xs[1..][m] == rest[k];
        assert xs[m + 1] == rest[k];
      }
    }
  }

  function InsertByName(r: Role, xs: seq<Role>): (out: seq<Role>)
    requires ByName(xs)
    ensures ByName(out)
    ensures multiset(out) == multiset(xs) + multiset{r}
  {
    if |xs| == 0 then [r]
    else if NameLeq(r.name, xs[0].name) then
      assert forall j :: 0 <= j < |xs| ==> NameLeq(r.name, xs[j].name) by {
        forall j | 0 <= j < |xs| ensures NameLeq(r.name, xs[j].name) {
          if j > 0 { NameLeqTransitive(r.name, xs[0].name, xs[j].name); }
        }
      }
      [r] + xs
    else
      NameLeqTotal(r.name, xs[0].name);
      var rest := InsertByName(r, xs[1..]);
      assert xs == [xs[0]] + xs[1..];
      HeadBoundByName(xs, rest, r);
      [xs[0]] + rest
  }

  /** `OrderBy(r => r.Name)`: a permutation of the rows in ascending name order. */
  function SortByName(xs: seq<Role>): (r: seq<Role>)
    ensures ByName(r)
    ensures multiset(r) == multiset(xs)
    ensures |r| == |xs|
  {
    if |xs| == 0 then []
    else
      assert xs == [xs[0]] + xs[1..];
      InsertByName(xs[0], SortByName(xs[1..]))
  }
}
