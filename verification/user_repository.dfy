/**
 * Data access for users: lookups by id, username and email, existence, the
 * paged and filtered listing, inserts, whole-row updates and the soft delete.
 */
module UserRepository {
  import opened Common
  import opened Text
  import opened Entities
  import opened Store
  import opened Sorting
  import opened Query

  /** The position of the row with primary key `id` (the first one, should keys ever repeat). */
  function UserIndex(users: seq<User>, id: string): (r: Option<nat>)
    ensures r.Some? ==> r.value < |users| && users[r.value].id == id
    ensures r.Some? ==> forall j :: 0 <= j < r.value ==> users[j].id != id
    ensures r.None? <==> forall j :: 0 <= j < |users| ==> users[j].id != id
  {
    FirstIndex(users, (u: User) => u.id == id)
  }

  /** The key lookup only looks at ids, so rewriting other fields of rows does not move it. */
  lemma UserIndexSameIds(a: seq<User>, b: seq<User>, id: string)
    requires |a| == |b|
    requires forall i :: 0 <= i < |a| ==> a[i].id == b[i].id
    ensures UserIndex(a, id) == UserIndex(b, id)
  {
  }

  /** `FindAsync(id)`: primary-key lookup, whatever the active flag. */
  function GetUserById(s: Store, id: string): (r: Option<User>)
    ensures r.Some? ==> r.value in s.users && r.value.id == id
    ensures r.None? <==> !HasUserId(s, id)
  {
    match UserIndex(s.users, id)
    case None => None
    case Some(k) => Some(s.users[k])
  }

  /** `UserExistsAsync`: true exactly when a row has this id, active or not. */
  function UserExists(s: Store, id: string): (b: bool)
    ensures b <==> exists u :: u in s.users && u.id == id
    ensures b <==> GetUserById(s, id).Some?
  {
    UserIndex(s.users, id).Some?
  }

  /** `GetUserByUsernameAsync`: the first row whose username equals `name` ignoring case. */
  function GetUserByUsername(s: Store, name: string): (r: Option<User>)
    ensures r.Some? ==> r.value in s.users && Lower(r.value.username) == Lower(name)
    ensures r.None? <==> forall u :: u in s.users ==> Lower(u.username) != Lower(name)
  {
    match FirstIndex(s.users, (u: User) => Lower(u.username) == Lower(name))
    case None => None
    case Some(k) => Some(s.users[k])
  }

  /** `GetUserByEmailAsync`: the first row whose email equals `email` ignoring case. */
  function GetUserByEmail(s: Store, email: string): (r: Option<User>)
    ensures r.Some? ==> r.value in s.users && Lower(r.value.email) == Lower(email)
    ensures r.None? <==> forall u :: u in s.users ==> Lower(u.email) != Lower(email)
  {
    match FirstIndex(s.users, (u: User) => Lower(u.email) == Lower(email))
    case None => None
    case Some(k) => Some(s.users[k])
  }

  /** The active-user lookup by id the authentication service relies on; its body is not part of the repository, so this is a chosen reading. */
  function GetActiveUserById(s: Store, id: string): (r: Option<User>)
    ensures r.Some? ==> r.value in s.users && r.value.id == id && r.value.isActive
    ensures r.None? <==> forall u :: u in s.users ==> !(u.id == id && u.isActive)
  {
    match FirstIndex(s.users, (u: User) => u.id == id && u.isActive)
    case None => None
    case Some(k) => Some(s.users[k])
  }

  /** With unique keys, an active user is found under its own id. */
  lemma ActiveUserByIdFindsRow(s: Store, u: User)
    requires UniqueUsers(s.users)
    requires u in s.users && u.isActive
    ensures GetActiveUserById(s, u.id) == Some(u)
  {
    var v := GetActiveUserById(s, u.id).value;
    var i :| 0 <= i < |s.users| && s.users[i] == u;
    var j :| 0 <= j < |s.users| && s.users[j] == v;
  }

  /** The active-user lookup by email (a chosen reading: the email is compared ignoring case, the body not being part of the repository). */
  function GetActiveUserByEmail(s: Store, email: string): (r: Option<User>)
    ensures r.Some? ==> r.value in s.users && Lower(r.value.email) == Lower(email) && r.value.isActive
    ensures r.None? <==> forall u :: u in s.users ==> !(Lower(u.email) == Lower(email) && u.isActive)
  {
    match FirstIndex(s.users, (u: User) => Lower(u.email) == Lower(email) && u.isActive)
    case None => None
    case Some(k) => Some(s.users[k])
  }

  /** `CreateUserAsync`: a plain insert; the database's constraints decide whether it is saved. */
  function CreateUser(s: Store, u: User): (r: Saved<Store>)
    ensures r.Saved? ==> GetUserById(r.value, u.id) == Some(WithColumnDefaults(u))
    ensures r.Saved? ==> |r.value.users| == |s.users| + 1
    ensures r.DbFault? <==> Clashes(s.users, u) || !FitsColumns(u)
  {
    var r := InsertUser(s, u);
    if r.Saved? then
      assert r.value.users[|s.users|] == WithColumnDefaults(u);
      r
    else r
  }

  /**
   * `UpdateUserAsync`: writes the whole row back under its key. Updating a key
   * that no row has affects no row, which the ORM reports as a fault; so is a
   * row that would break a unique index or a column width.
   */
  function UpdateUser(s: Store, u: User): (r: Saved<Store>)
    ensures r.DbFault? <==> !HasUserId(s, u.id) || ClashesWithOthers(s.users, u) || !FitsColumns(u)
    ensures r.Saved? ==> |r.value.users| == |s.users|
    ensures r.Saved? ==> GetUserById(r.value, u.id) == Some(u)
    ensures r.Saved? ==> forall i :: 0 <= i < |s.users| && s.users[i].id != u.id ==> r.value.users[i] == s.users[i]
    ensures r.Saved? ==> r.value.roles == s.roles && r.value.userRoles == s.userRoles
  {
    match UserIndex(s.users, u.id)
    case None => DbFault(SaveFailedMessage)
    case Some(k) =>
      if ClashesWithOthers(s.users, u) || !FitsColumns(u) then DbFault(SaveFailedMessage)
      else
        var t := s.(users := s.users[k := u]);
        UserIndexSameIds(s.users, t.users, u.id);
        Saved(t)
  }

  /** `DeleteUserAsync`: a soft delete. The row stays; only its flag and timestamp change. */
  function DeleteUser(s: Store, id: string, now: Time): (t: Store)
    ensures !HasUserId(s, id) ==> t == s
    ensures HasUserId(s, id) ==>
      GetUserById(t, id) == Some(GetUserById(s, id).value.(isActive := false, updatedAt := now))
    ensures |t.users| == |s.users|
    ensures forall i :: 0 <= i < |s.users| ==> t.users[i].id == s.users[i].id
    ensures forall i :: 0 <= i < |s.users| && s.users[i].id != id ==> t.users[i] == s.users[i]
    ensures t.roles == s.roles && t.userRoles == s.userRoles
  {
    match UserIndex(s.users, id)
    case None => s
    case Some(k) =>
      var t := s.(users := s.users[k := s.users[k].(isActive := false, updatedAt := now)]);
      UserIndexSameIds(s.users, t.users, id);
      t
  }

  /** With unique keys, a soft delete deactivates exactly the row holding the id. */
  lemma DeleteUserDeactivatesRow(s: Store, id: string, now: Time, k: nat)
    requires UniqueUsers(s.users)
    requires k < |s.users| && s.users[k].id == id
    ensures DeleteUser(s, id, now).users == s.users[k := s.users[k].(isActive := false, updatedAt := now)]
  {
    assert UserIndex(s.users, id) == Some(k);
  }

  /** After a soft delete, no active row answers to the deleted user's email, case aside. */
  lemma DeletedEmailHasNoActiveUser(s: Store, u: User, now: Time)
    requires UniqueUsers(s.users) && UniqueIgnoringCase(s.users)
    requires u in s.users
    ensures GetActiveUserByEmail(DeleteUser(s, u.id, now), u.email).None?
  {
    var d := DeleteUser(s, u.id, now);
    var k :| 0 <= k < |s.users| && s.users[k] == u;
    DeleteUserDeactivatesRow(s, u.id, now, k);
    forall v | v in d.users ensures !(Lower(v.email) == Lower(u.email) && v.isActive) {
      var i :| 0 <= i < |d.users| && d.users[i] == v;
      if i != k {
        assert d.users[i] == s.users[i];
      }
    }
  }

  /** Soft deletion keeps the schema invariant: keys, indexes and references are untouched. */
  lemma DeleteUserPreservesWellFormed(s: Store, id: string, now: Time)
    requires WellFormed(s)
    ensures WellFormed(DeleteUser(s, id, now))
  {
    var t := DeleteUser(s, id, now);
    forall i | 0 <= i < |s.users| ensures SameIdentity(t.users[i], s.users[i]) {
      if s.users[i].id == id {
        var k := UserIndex(s.users, id).value;
        assert t.users == s.users[k := s.users[k].(isActive := false, updatedAt := now)];
      }
    }
    SameIdentityKeepsWellFormed(s, t);
  }

  // ---- The paged listing ----

  /** The search applies only when the text is present and not all whitespace. */
  predicate SearchApplies(f: RowFilter) {
    f.search.Some? && !IsBlank(f.search.value)
  }

  /** Whether a row qualifies for the listing: the optional flag filter and the case-insensitive search. */
  predicate MatchesQuery(f: RowFilter, u: User) {
    && (f.isActiveFilterEnabled ==> u.isActive == f.isActive)
    && (SearchApplies(f) ==>
          Contains(Lower(u.username), Lower(f.search.value)) || Contains(Lower(u.email), Lower(f.search.value)))
  }

  /** The qualifying rows in storage order. */
  function FilterUsers(users: seq<User>, f: RowFilter): (r: seq<User>)
    ensures forall u :: u in r <==> u in users && MatchesQuery(f, u)
    ensures forall u :: multiset(r)[u] == (if MatchesQuery(f, u) then multiset(users)[u] else 0)
    ensures |r| <= |users|
  {
    if |users| == 0 then []
    else
      var rest := FilterUsers(users[1..], f);
      assert users == [users[0]] + users[1..];
      if MatchesQuery(f, users[0]) then [users[0]] + rest else rest
  }

  /** `Skip(n)`: drops the first n rows; a count of zero or below drops nothing. */
  function Skip<T>(xs: seq<T>, n: int): seq<T> {
    if n <= 0 then xs else if n >= |xs| then [] else xs[n..]
  }

  /** `Take(n)`: keeps the first n rows; a count of zero or below keeps none. */
  function Take<T>(xs: seq<T>, n: int): seq<T> {
    if n <= 0 then [] else if n >= |xs| then xs else xs[..n]
  }

  function Max0(n: int): nat {
    if n < 0 then 0 else n
  }

  /** `Skip(offset).Take(size)`: at most `size` consecutive rows starting at `offset`. */
  function Window<T>(xs: seq<T>, offset: int, size: int): (r: seq<T>)
    ensures |r| <= Max0(size)
    ensures Max0(offset) <= |xs| ==> |r| == (if Max0(size) < |xs| - Max0(offset) then Max0(size) else |xs| - Max0(offset))
    ensures Max0(offset) >= |xs| ==> r == []
    ensures forall i :: 0 <= i < |r| ==> i + Max0(offset) < |xs| && r[i] == xs[i + Max0(offset)]
  {
    Take(Skip(xs, offset), size)
  }

  /** A window is the slice of the rows between its two ends. */
  lemma WindowIsSlice<T>(xs: seq<T>, offset: int, size: int)
    ensures var lo := if Max0(offset) < |xs| then Max0(offset) else |xs|;
      var hi := if Max0(size) < |xs| - lo then lo + Max0(size) else |xs|;
      Window(xs, offset, size) == xs[lo..hi]
  {
  }

  lemma WindowKeepsOrder(xs: seq<User>, offset: int, size: int)
    requires NewestFirst(xs)
    ensures NewestFirst(Window(xs, offset, size))
    ensures forall u :: u in Window(xs, offset, size) ==> u in xs
  {
    WindowIsSlice(xs, offset, size);
    var lo := if Max0(offset) < |xs| then Max0(offset) else |xs|;
    var hi := if Max0(size) < |xs| - lo then lo + Max0(size) else |xs|;
    SliceNewestFirst(xs, lo, hi);
  }

  /** The qualifying rows, newest first. */
  function Ordered(s: Store, f: RowFilter): (r: seq<User>)
    ensures NewestFirst(r)
    ensures forall u :: u in r <==> u in s.users && MatchesQuery(f, u)
    ensures multiset(r) == multiset(FilterUsers(s.users, f))
  {
    var matching := FilterUsers(s.users, f);
    var r := SortNewestFirst(matching);
    assert forall u :: u in r <==> u in multiset(matching);
    r
  }

  datatype UserPage = UserPage(items: seq<User>, totalCount: int)

  /**
   * `GetPaginatedUsersAsync`: filters, counts the qualifying rows before paging,
   * orders them newest first, then skips the earlier pages and takes one page.
   */
  function GetPaginatedUsers(s: Store, p: UserQueryParameters): (r: UserPage)
    ensures r.totalCount == |Ordered(s, FilterOf(p))| == |FilterUsers(s.users, FilterOf(p))|
    ensures |r.items| <= Max0(p.pageSize) <= MaxPageSize
    ensures forall u :: u in r.items ==> u in s.users && MatchesQuery(FilterOf(p), u)
    ensures NewestFirst(r.items)
    ensures forall i :: 0 <= i < |r.items| ==>
      i + Max0(PageOffset(p)) < |Ordered(s, FilterOf(p))|
      && r.items[i] == Ordered(s, FilterOf(p))[i + Max0(PageOffset(p))]
  {
    var ordered := Ordered(s, FilterOf(p));
    WindowKeepsOrder(ordered, PageOffset(p), p.pageSize);
    UserPage(Window(ordered, PageOffset(p), p.pageSize), |ordered|)
  }

  /** The total depends on the filter only, never on which page or how large a page was asked for. */
  lemma TotalCountIgnoresPaging(s: Store, p: UserQueryParameters, page: Int32, size: PageSize)
    ensures GetPaginatedUsers(s, p.(page := page, pageSize := size)).totalCount == GetPaginatedUsers(s, p).totalCount
  {
    assert FilterOf(p.(page := page, pageSize := size)) == FilterOf(p);
  }

  /**
   * With a positive page size, every row of the listing appears on exactly the
   * page whose window holds its position: row i is item i - offset of that page.
   */
  lemma {:induction false} RowOnItsPage(s: Store, p: UserQueryParameters, i: nat)
    requires p.page >= 1 && p.pageSize > 0
    requires PageOffset(p) <= i < PageOffset(p) + p.pageSize
    requires i < |Ordered(s, FilterOf(p))|
    ensures i - PageOffset(p) < |GetPaginatedUsers(s, p).items|
    ensures GetPaginatedUsers(s, p).items[i - PageOffset(p)] == Ordered(s, FilterOf(p))[i]
  {
  }

  /** Row i lies in the window of page i / size + 1 and of no other page: the pages partition the rows. */
  lemma RowOnExactlyOnePage(i: nat, size: int, page: int)
    requires size > 0
    ensures Offset(i / size + 1, size) <= i < Offset(i / size + 1, size) + size
    ensures page >= 1 && Offset(page, size) <= i < Offset(page, size) + size ==> page == i / size + 1
  {
    var k := i / size;
    assert Offset(k + 1, size) == k * size;
    if page >= 1 && Offset(page, size) <= i < Offset(page, size) + size {
      var m := page - 1;
      assert m * size <= i < m * size + size;
      if m < k {
        MulMonotone(m, k, size);
      } else if k < m {
        MulMonotone(k, m, size);
      }
    }
  }

  lemma MulMonotone(a: int, b: int, size: int)
    requires size > 0 && a < b
    ensures a * size + size <= b * size
  {
    var d := b - a - 1;
    assert d >= 0;
    assert d * size >= 0;
    assert b * size == a * size + size + d * size;
  }

  /** The listing as written, with the offset computed in wrapping 32-bit arithmetic. */
  function GetPaginatedUsersAsWritten(s: Store, p: UserQueryParameters): (r: UserPage)
    ensures r.totalCount == |Ordered(s, FilterOf(p))| == |FilterUsers(s.users, FilterOf(p))|
    ensures forall i :: 0 <= i < |r.items| ==>
      i + Max0(PageOffsetAsWritten(p)) < |Ordered(s, FilterOf(p))|
      && r.items[i] == Ordered(s, FilterOf(p))[i + Max0(PageOffsetAsWritten(p))]
  {
    var ordered := Ordered(s, FilterOf(p));
    UserPage(Window(ordered, PageOffsetAsWritten(p), p.pageSize), |ordered|)
  }

  /**
   * Page 268435457 of size 16 starts 2^32 rows in; as written the offset wraps
   * to 0 and the first page comes back, where the intended listing is empty.
   */
  lemma FarPageRepeatsFirstPage(s: Store, p: UserQueryParameters)
    requires p.page == 268435457 && p.pageSize == 16
    requires |s.users| < 0x1_0000_0000
    ensures GetPaginatedUsersAsWritten(s, p).items == GetPaginatedUsers(s, p.(page := 1)).items
    ensures GetPaginatedUsers(s, p).items == []
  {
    OffsetWrapsToFirstPage();
    assert PageOffsetAsWritten(p) == 0 by {
      assert p == UserQueryParameters(268435457, 16, p.isActive, p.isActiveFilterEnabled, p.search);
    }
    assert FilterOf(p.(page := 1)) == FilterOf(p);
    assert |Ordered(s, FilterOf(p))| <= |s.users|;
  }
}
