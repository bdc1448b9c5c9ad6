/** The SQL statements the handlers issue, as functions over the rows of the
    two tables, together with the table invariants and the lemmas about them. */
module Queries {
  import opened Rows

  // ---------------------------------------------------------------------
  // Table invariants

  /** No two rows of `users` share a username. */
  ghost predicate UniqueUsernames(users: seq<User>)
  {
    forall i, j :: 0 <= i < j < |users| ==> users[i].username != users[j].username
  }

  /** AUTO_INCREMENT ids: strictly increasing in storage order, hence unique. */
  ghost predicate UserIdsIncreasing(users: seq<User>)
  {
    forall i, j :: 0 <= i < j < |users| ==> users[i].id < users[j].id
  }

  ghost predicate ReportIdsIncreasing(reports: seq<Report>)
  {
    forall i, j :: 0 <= i < j < |reports| ==> reports[i].id < reports[j].id
  }

  ghost predicate HasUsername(users: seq<User>, username: string)
  {
    exists i :: 0 <= i < |users| && users[i].username == username
  }

  ghost predicate HasReport(reports: seq<Report>, id: int)
  {
    exists i :: 0 <= i < |reports| && reports[i].id == id
  }

  /** `ORDER BY reported_at DESC`. */
  ghost predicate NewestFirst(s: seq<Report>)
  {
    forall i, j :: 0 <= i < j < |s| ==> s[i].reportedAt >= s[j].reportedAt
  }

  // ---------------------------------------------------------------------
  // WHERE clauses

  /** The position of the first row `fetchone()` returns for a `WHERE p`
      query, or `|s|` when no row matches. */
  function FirstWhere<T>(s: seq<T>, p: T -> bool): (k: nat)
    ensures k <= |s|
    ensures k < |s| ==> p(s[k])
    ensures forall j :: 0 <= j < k ==> !p(s[j])
  {
    if |s| == 0 then 0
    else if p(s[0]) then 0
    else 1 + FirstWhere(s[1..], p)
  }

  /** The rows a `WHERE p` clause selects, in storage order. */
  function Where<T(!new)>(s: seq<T>, p: T -> bool): (r: seq<T>)
    ensures forall x :: x in r <==> x in s && p(x)
    ensures |r| <= |s|
  {
    if |s| == 0 then []
    else
      assert s == [s[0]] + s[1..];
      if p(s[0]) then [s[0]] + Where(s[1..], p) else Where(s[1..], p)
  }

  /** A `WHERE p` clause keeps every selected row as often as the table
      holds it, and drops every other row. */
  lemma {:induction false} WhereCounts<T(!new)>(s: seq<T>, p: T -> bool)
    ensures forall x :: multiset(Where(s, p))[x] == if p(x) then multiset(s)[x] else 0
  {
    if |s| > 0 {
      WhereCounts(s[1..], p);
      assert s == [s[0]] + s[1..];
    }
  }

  /** The conditions of the WHERE clauses. */
  function UsernameIs(username: string): User -> bool
  {
    (u: User) => u.username == username
  }

  function IdIs(id: int): Report -> bool
  {
    (x: Report) => x.id == id
  }

  function IdIsNot(id: int): Report -> bool
  {
    (x: Report) => x.id != id
  }

  function UserIdIs(userId: int): Report -> bool
  {
    (x: Report) => x.userId == userId
  }

  // ---------------------------------------------------------------------
  // users

  /** `SELECT * FROM users WHERE username = %s` and `fetchone()`. */
  function FindUser(users: seq<User>, username: string): (r: Option<User>)
    ensures r.Some? ==> r.value in users && r.value.username == username
    ensures r.None? <==> !HasUsername(users, username)
  {
    var k := FirstWhere(users, UsernameIs(username));
    if k < |users| then Some(users[k]) else None
  }

  /** Under unique usernames the row `FindUser` returns is the only row with
      that username, so a login is decided by that row alone. */
  lemma FindUserIsOnlyMatch(users: seq<User>, username: string, u: User)
    requires UniqueUsernames(users)
    requires u in users && u.username == username
    ensures FindUser(users, username) == Some(u)
  {
    var v := FindUser(users, username).value;
    var i :| 0 <= i < |users| && users[i] == u;
    var j :| 0 <= j < |users| && users[j] == v;
    assert users[i].username == users[j].username;
  }

  /** After a user row with a fresh username is appended, looking that
      username up finds exactly the new row. */
  lemma {:induction false} FindAppendedUser(users: seq<User>, u: User)
    requires !HasUsername(users, u.username)
    ensures FindUser(users + [u], u.username) == Some(u)
  {
    assert (users + [u])[|users|] == u;
  }

  /** A user registered with a password under a sound scheme logs in with
      that password. */
  lemma RegisteredUserLogsIn(users: seq<User>, id: nat, username: string,
                             password: string, salt: string, scheme: PasswordScheme)
    requires Sound(scheme)
    requires !HasUsername(users, username)
    ensures var u := User(id, username, scheme.generate(password, salt));
            FindUser(users + [u], username) == Some(u) && scheme.check(u.passwordHash, password)
  {
    FindAppendedUser(users, User(id, username, scheme.generate(password, salt)));
  }

  // ---------------------------------------------------------------------
  // trash_reports: lookup and deletion

  /** `SELECT id FROM trash_reports WHERE id = %s` and `fetchone()`: the
      position of the row found. */
  function FindReport(reports: seq<Report>, id: int): (r: Option<nat>)
    ensures r.Some? ==> r.value < |reports| && reports[r.value].id == id
    ensures r.None? <==> !HasReport(reports, id)
  {
    var k := FirstWhere(reports, IdIs(id));
    if k < |reports| then Some(k) else None
  }

  /** The table after `DELETE FROM trash_reports WHERE id = %s`. */
  function WithoutId(reports: seq<Report>, id: int): (r: seq<Report>)
    ensures forall x :: x in r <==> x in reports && x.id != id
    ensures !HasReport(r, id)
  {
    var r := Where(reports, IdIsNot(id));
    assert forall i :: 0 <= i < |r| ==> r[i] in r;
    r
  }

  lemma {:induction false} WhereKeepsAll<T(!new)>(s: seq<T>, p: T -> bool)
    requires forall i :: 0 <= i < |s| ==> p(s[i])
    ensures Where(s, p) == s
  {
    if |s| > 0 {
      WhereKeepsAll(s[1..], p);
    }
  }

  /** The first row is the only one with its id. */
  lemma WhereDropsHead(reports: seq<Report>)
    requires ReportIdsIncreasing(reports)
    requires |reports| > 0
    ensures Where(reports, IdIsNot(reports[0].id)) == reports[1..]
  {
    var p := IdIsNot(reports[0].id);
    var tail := reports[1..];
    forall i | 0 <= i < |tail|
      ensures p(tail[i])
    {
      assert tail[i] == reports[i + 1];
    }
    WhereKeepsAll(tail, p);
  }

  lemma SpliceAfterHead<T>(s: seq<T>, k: nat)
    requires 0 < k < |s|
    ensures [s[0]] + (s[1..][..k - 1] + s[1..][k..]) == s[..k] + s[k + 1..]
  {
    assert [s[0]] + s[1..][..k - 1] == s[..k];
  }

  lemma {:induction false} WhereDropsOne(reports: seq<Report>, k: nat)
    requires ReportIdsIncreasing(reports)
    requires k < |reports|
    ensures Where(reports, IdIsNot(reports[k].id)) == reports[..k] + reports[k + 1..]
  {
    if k == 0 {
      WhereDropsHead(reports);
      assert reports[..0] + reports[1..] == reports[1..];
    } else {
      var p := IdIsNot(reports[k].id);
      var tail := reports[1..];
      assert ReportIdsIncreasing(tail) && tail[k - 1] == reports[k];
      WhereDropsOne(tail, k - 1);
      assert p(reports[0]);
      assert Where(reports, p) == [reports[0]] + Where(tail, p);
      SpliceAfterHead(reports, k);
    }
  }

  /** Deleting an id that is present removes exactly that one row and keeps
      the others in order. */
  lemma DeleteRemovesOneRow(reports: seq<Report>, k: nat)
    requires ReportIdsIncreasing(reports)
    requires k < |reports|
    ensures WithoutId(reports, reports[k].id) == reports[..k] + reports[k + 1..]
  {
    WhereDropsOne(reports, k);
  }

  /** Removing rows keeps the ids increasing. */
  lemma DeletePreservesIds(reports: seq<Report>, k: nat)
    requires ReportIdsIncreasing(reports)
    requires k < |reports|
    ensures ReportIdsIncreasing(reports[..k] + reports[k + 1..])
  {
    var r := reports[..k] + reports[k + 1..];
    forall i, j | 0 <= i < j < |r|
      ensures r[i].id < r[j].id
    {
      var i' := if i < k then i else i + 1;
      var j' := if j < k then j else j + 1;
      assert r[i] == reports[i'] && r[j] == reports[j'];
    }
  }

  // ---------------------------------------------------------------------
  // trash_reports: the two listings

  /** `SELECT * FROM trash_reports WHERE user_id = %s`, unordered. */
  function OfUser(reports: seq<Report>, userId: int): (r: seq<Report>)
    ensures forall x :: x in r <==> x in reports && x.userId == userId
  {
    Where(reports, UserIdIs(userId))
  }

  lemma MembersOfPermutation<T>(a: seq<T>, b: seq<T>)
    requires multiset(a) == multiset(b)
    ensures forall x :: x in a <==> x in b
  {
    forall x
      ensures x in a <==> x in b
    {
      assert x in a <==> x in multiset(a);
      assert x in b <==> x in multiset(b);
    }
  }

  /** Prepending a report no older than the head keeps a sequence newest
      first. */
  lemma NewestFirstCons(x: Report, s: seq<Report>)
    requires NewestFirst(s)
    requires |s| > 0 ==> x.reportedAt >= s[0].reportedAt
    ensures NewestFirst([x] + s)
  {
    var r := [x] + s;
    forall i, j | 0 <= i < j < |r|
      ensures r[i].reportedAt >= r[j].reportedAt
    {
      if i == 0 {
        assert r[j] == s[j - 1];
        assert s[0].reportedAt >= s[j - 1].reportedAt || j == 1;
      } else {
        assert r[i] == s[i - 1] && r[j] == s[j - 1];
      }
    }
  }

  /** Places `x` in a newest-first sequence. */
  function InsertByTime(x: Report, s: seq<Report>): (r: seq<Report>)
    requires NewestFirst(s)
    ensures NewestFirst(r)
    ensures multiset(r) == multiset(s) + multiset{x}
    ensures |r| == |s| + 1
    ensures r[0] == x || (|s| > 0 && r[0] == s[0])
  {
    if |s| == 0 then [x]
    else if x.reportedAt >= s[0].reportedAt then
      NewestFirstCons(x, s);
      [x] + s
    else
      assert s == [s[0]] + s[1..];
      var rest := InsertByTime(x, s[1..]);
      NewestFirstCons(s[0], rest);
      [s[0]] + rest
  }

  /** `ORDER BY reported_at DESC`: a newest-first permutation of `s`. */
  function SortNewestFirst(s: seq<Report>): (r: seq<Report>)
    ensures NewestFirst(r)
    ensures multiset(r) == multiset(s)
  {
    if |s| == 0 then []
    else
      assert s == [s[0]] + s[1..];
      InsertByTime(s[0], SortNewestFirst(s[1..]))
  }

  /** The query of `GET /reports/user/<user_id>`: that user's reports, newest
      first. */
  function UserReports(reports: seq<Report>, userId: int): (r: seq<Report>)
    ensures NewestFirst(r)
    ensures forall x :: x in r <==> x in reports && x.userId == userId
  {
    var r := SortNewestFirst(OfUser(reports, userId));
    MembersOfPermutation(r, OfUser(reports, userId));
    r
  }


  /** The per-user listing holds each of that user's reports as often as the
      table does, and nothing else: a permutation of the filtered rows. */
  lemma UserReportsIsPermutation(reports: seq<Report>, userId: int)
    ensures forall x :: multiset(UserReports(reports, userId))[x] ==
                        if x.userId == userId then multiset(reports)[x] else 0
  {
    WhereCounts(reports, UserIdIs(userId));
  }

  /** The rows of `users` whose id is `r.userId`, each paired with `r`. */
  function MatchReporter(r: Report, users: seq<User>): (js: seq<Joined>)
    ensures forall j :: j in js <==> j.report == r && j.reporter in users && j.reporter.id == r.userId
  {
    if |users| == 0 then []
    else
      assert users == [users[0]] + users[1..];
      (if users[0].id == r.userId then [Joined(r, users[0])] else []) + MatchReporter(r, users[1..])
  }

  /** `FROM trash_reports tr JOIN users u ON tr.user_id = u.id`: a row for
      every report and user with matching ids, and no other row. */
  function JoinUsers(reports: seq<Report>, users: seq<User>): (js: seq<Joined>)
    ensures forall j :: j in js <==> j.report in reports && j.reporter in users && j.report.userId == j.reporter.id
  {
    if |reports| == 0 then []
    else
      assert reports == [reports[0]] + reports[1..];
      MatchReporter(reports[0], users) + JoinUsers(reports[1..], users)
  }
}
