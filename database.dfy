/** The six request handlers of the WildWaste backend as methods of the store
    they share: the `users` and `trash_reports` tables with their
    AUTO_INCREMENT counters. Every handler answers with a status code and a
    payload; a handler that fails leaves the tables as they were. */
module WildWaste {
  import opened Rows
  import opened Responses
  import opened Queries

  /** The 400 test of `/register` and `/login`: no body, or a key missing. */
  predicate CredentialsMissing(body: Option<Credentials>): (missing: bool)
    ensures !missing <==> body.Some? && body.value.username.Some? && body.value.password.Some?
  {
    body.None? || body.value.username.None? || body.value.password.None?
  }

  /** The 400 test of `POST /reports`: no body, or a required key missing. */
  predicate ReportDataMissing(body: Option<ReportForm>): (missing: bool)
    ensures !missing <==>
              && body.Some?
              && body.value.userId.Some? && body.value.latitude.Some? && body.value.longitude.Some?
              && body.value.trashType.Some? && body.value.quantity.Some?
  {
    || body.None?
    || body.value.userId.None?
    || body.value.latitude.None?
    || body.value.longitude.None?
    || body.value.trashType.None?
    || body.value.quantity.None?
  }

  /** A row of the full listing as it is sent: the report, its reporter's
      username and the ISO text of its time. */
  function Published(j: Joined, iso: int -> string): ReportRow
  {
    Serialized(Fetch(j.report, Some(j.reporter.username)), iso)
  }

  /** The loop both listing handlers run over the fetched rows, replacing
      each row's time by its ISO text in place. */
  method RewriteTimestamps(fetched: seq<ReportRow>, iso: int -> string) returns (rows: seq<ReportRow>)
    ensures |rows| == |fetched|
    ensures forall k :: 0 <= k < |fetched| ==> rows[k] == Serialized(fetched[k], iso)
  {
    var a := new ReportRow[|fetched|](k requires 0 <= k < |fetched| => fetched[k]);
    for i := 0 to a.Length
      invariant forall k :: 0 <= k < i ==> a[k] == Serialized(fetched[k], iso)
      invariant forall k :: i <= k < a.Length ==> a[k] == fetched[k]
    {
      a[i] := Serialized(a[i], iso);
    }
    rows := a[..];
  }

  /** What the full listing holds: a row for every report whose user exists,
      carrying that user's username, and no other row. */
  lemma AllReportsListing(reports: seq<Report>, users: seq<User>, iso: int -> string, rows: seq<ReportRow>)
    requires var js := JoinUsers(reports, users);
             |rows| == |js| && forall k :: 0 <= k < |js| ==> rows[k] == Published(js[k], iso)
    ensures forall r, u :: r in reports && u in users && r.userId == u.id ==> Published(Joined(r, u), iso) in rows
    ensures forall row :: row in rows ==>
              exists j: Joined :: j.report in reports && j.reporter in users && j.report.userId == j.reporter.id
                                  && row == Published(j, iso)
  {
    var js := JoinUsers(reports, users);
    forall r, u | r in reports && u in users && r.userId == u.id
      ensures Published(Joined(r, u), iso) in rows
    {
      var k :| 0 <= k < |js| && js[k] == Joined(r, u);
      assert rows[k] == Published(js[k], iso);
    }
    forall row | row in rows
      ensures exists j: Joined :: j.report in reports && j.reporter in users && j.report.userId == j.reporter.id
                                  && row == Published(j, iso)
    {
      var k :| 0 <= k < |rows| && rows[k] == row;
      assert js[k] in js;
    }
  }

  /** What the per-user listing holds: exactly that user's reports, so
      nothing for a user without reports. */
  lemma UserReportsListing(reports: seq<Report>, userId: int, iso: int -> string, rows: seq<ReportRow>)
    requires var q := UserReports(reports, userId);
             |rows| == |q| && forall k :: 0 <= k < |q| ==> rows[k] == Serialized(Fetch(q[k], None), iso)
    ensures forall row :: row in rows ==> row.userId == userId
    ensures forall r :: r in reports && r.userId == userId ==> Serialized(Fetch(r, None), iso) in rows
    ensures (forall r :: r in reports ==> r.userId != userId) ==> rows == []
  {
    var q := UserReports(reports, userId);
    forall r | r in reports && r.userId == userId
      ensures Serialized(Fetch(r, None), iso) in rows
    {
      var k :| 0 <= k < |q| && q[k] == r;
      assert rows[k] == Serialized(Fetch(q[k], None), iso);
    }
    forall row | row in rows
      ensures row.userId == userId
    {
      var k :| 0 <= k < |rows| && rows[k] == row;
      assert q[k] in q;
    }
    if forall r :: r in reports ==> r.userId != userId {
      if |q| > 0 {
        assert q[0] in q;
      }
    }
  }

  class Database {
    var users: seq<User>
    var reports: seq<Report>
    var nextUserId: nat
    var nextReportId: nat

    ghost predicate Valid()
      reads this
    {
      && UniqueUsernames(users)
      && UserIdsIncreasing(users)
      && (forall i :: 0 <= i < |users| ==> users[i].id < nextUserId)
      && ReportIdsIncreasing(reports)
      && (forall i :: 0 <= i < |reports| ==> reports[i].id < nextReportId)
    }

    /** Two empty tables whose ids start at 1. */
    constructor ()
      ensures Valid()
      ensures users == [] && reports == [] && nextUserId == 1 && nextReportId == 1
    {
      users, reports := [], [];
      nextUserId, nextReportId := 1, 1;
    }

    /** `POST /register`. The password is hashed with `salt` before the
        connection is opened; statement 0 is the username lookup, 1 the
        insert and 2 the commit. */
    method Register(body: Option<Credentials>, scheme: PasswordScheme, salt: string, faults: Faults)
      returns (resp: Response)
      requires Valid()
      modifies this
      ensures Valid()
      ensures reports == old(reports) && nextReportId == old(nextReportId)
      ensures CredentialsMissing(body) ==> resp == MISSING_CREDENTIALS && unchanged(this)
      ensures !CredentialsMissing(body) && faults.connectFails ==>
                resp == CONNECTION_FAILED && unchanged(this)
      ensures !CredentialsMissing(body) && !faults.connectFails && !faults.Survives(1) ==>
                resp == StorageError(faults.detail) && unchanged(this)
      ensures !CredentialsMissing(body) && faults.Survives(1) ==>
                var username := body.value.username.value;
                var password := body.value.password.value;
                if HasUsername(old(users), username) then
                  resp == USERNAME_TAKEN && unchanged(this)
                else if !faults.Survives(3) then
                  resp == StorageError(faults.detail) && unchanged(this)
                else
                  && resp == REGISTERED
                  && users == old(users) + [User(old(nextUserId), username, scheme.generate(password, salt))]
                  && nextUserId == old(nextUserId) + 1
    {
      if CredentialsMissing(body) {
        return MISSING_CREDENTIALS;
      }
      var username := body.value.username.value;
      var passwordHash := scheme.generate(body.value.password.value, salt);
      if faults.connectFails {
        return CONNECTION_FAILED;
      }
      if !faults.Survives(1) {
        return StorageError(faults.detail);
      }
      var existing := FindUser(users, username);
      if existing.Some? {
        return USERNAME_TAKEN;
      }
      if !faults.Survives(3) {
        return StorageError(faults.detail);
      }
      users := users + [User(nextUserId, username, passwordHash)];
      nextUserId := nextUserId + 1;
      resp := REGISTERED;
    }

    /** `POST /login`. Statement 0 is the username lookup. An unknown
        username and a wrong password give the same answer, and the answer
        never carries the stored hash. */
    method Login(body: Option<Credentials>, scheme: PasswordScheme, faults: Faults)
      returns (resp: Response)
      requires Valid()
      ensures CredentialsMissing(body) ==> resp == MISSING_CREDENTIALS
      ensures !CredentialsMissing(body) && faults.connectFails ==> resp == CONNECTION_FAILED
      ensures !CredentialsMissing(body) && !faults.connectFails && !faults.Survives(1) ==>
                resp == StorageError(faults.detail)
      ensures !CredentialsMissing(body) && faults.Survives(1) ==>
                var username := body.value.username.value;
                var password := body.value.password.value;
                && (resp.status == 200 <==>
                      exists u :: u in users && u.username == username && scheme.check(u.passwordHash, password))
                && (resp.status == 200 ==>
                      exists u :: u in users && u.username == username && resp == LoginSucceeded(u.id, u.username))
                && (resp.status != 200 ==> resp == INVALID_CREDENTIALS)
    {
      if CredentialsMissing(body) {
        return MISSING_CREDENTIALS;
      }
      var username := body.value.username.value;
      var password := body.value.password.value;
      if faults.connectFails {
        return CONNECTION_FAILED;
      }
      if !faults.Survives(1) {
        return StorageError(faults.detail);
      }
      var user := FindUser(users, username);
      if user.Some? && scheme.check(user.value.passwordHash, password) {
        resp := LoginSucceeded(user.value.id, user.value.username);
      } else {
        resp := INVALID_CREDENTIALS;
        forall u | u in users && u.username == username
          ensures !scheme.check(u.passwordHash, password)
        {
          FindUserIsOnlyMatch(users, username, u);
        }
      }
    }

    /** `POST /reports`. Statement 0 is the insert and 1 the commit; the
        optional image and notes are stored as given, null when absent, and
        the user id is not checked against `users`. */
    method AddReport(body: Option<ReportForm>, now: int, faults: Faults) returns (resp: Response)
      requires Valid()
      modifies this
      ensures Valid()
      ensures users == old(users) && nextUserId == old(nextUserId)
      ensures ReportDataMissing(body) ==> resp == MISSING_REPORT_DATA && unchanged(this)
      ensures !ReportDataMissing(body) && faults.connectFails ==>
                resp == CONNECTION_FAILED && unchanged(this)
      ensures !ReportDataMissing(body) && !faults.connectFails && !faults.Survives(2) ==>
                resp == StorageError(faults.detail) && unchanged(this)
      ensures !ReportDataMissing(body) && faults.Survives(2) ==>
                var f := body.value;
                && resp == REPORT_SUBMITTED
                && reports == old(reports) + [Report(old(nextReportId), f.userId.value, f.latitude.value,
                                                    f.longitude.value, f.trashType.value, f.quantity.value,
                                                    f.imageBase64, f.notes, now)]
                && nextReportId == old(nextReportId) + 1
    {
      if ReportDataMissing(body) {
        return MISSING_REPORT_DATA;
      }
      if faults.connectFails {
        return CONNECTION_FAILED;
      }
      if !faults.Survives(2) {
        return StorageError(faults.detail);
      }
      var f := body.value;
      var report := Report(nextReportId, f.userId.value, f.latitude.value, f.longitude.value,
                           f.trashType.value, f.quantity.value, f.imageBase64, f.notes, now);
      reports := reports + [report];
      nextReportId := nextReportId + 1;
      resp := REPORT_SUBMITTED;
    }

    /** `GET /reports`. Statement 0 is the join; every report whose user
        exists is listed with that user's username, and no other report. */
    method GetAllReports(iso: int -> string, faults: Faults) returns (resp: Response)
      ensures faults.connectFails ==> resp == CONNECTION_FAILED
      ensures !faults.connectFails && !faults.Survives(1) ==> resp == StorageError(faults.detail)
      ensures faults.Survives(1) ==>
                var js := JoinUsers(reports, users);
                && resp.status == 200 && resp.payload.Data?
                && |resp.payload.rows| == |js|
                && (forall k :: 0 <= k < |js| ==> resp.payload.rows[k] == Published(js[k], iso))
      ensures faults.Survives(1) ==>
                forall r, u :: r in reports && u in users && r.userId == u.id ==>
                  Published(Joined(r, u), iso) in resp.payload.rows
      ensures faults.Survives(1) ==>
                forall row :: row in resp.payload.rows ==>
                  exists j: Joined :: j.report in reports && j.reporter in users && j.report.userId == j.reporter.id
                              && row == Published(j, iso)
    {
      if faults.connectFails {
        return CONNECTION_FAILED;
      }
      if !faults.Survives(1) {
        return StorageError(faults.detail);
      }
      var js := JoinUsers(reports, users);
      var fetched := seq(|js|, k requires 0 <= k < |js| => Fetch(js[k].report, Some(js[k].reporter.username)));
      var rows := RewriteTimestamps(fetched, iso);
      resp := Listing(rows);
      AllReportsListing(reports, users, iso, rows);
    }

    /** `GET /reports/user/<user_id>`. Statement 0 is the filtered, ordered
        select; a user without reports gets an empty listing with 200. */
    method GetUserReports(userId: nat, iso: int -> string, faults: Faults) returns (resp: Response)
      ensures faults.connectFails ==> resp == CONNECTION_FAILED
      ensures !faults.connectFails && !faults.Survives(1) ==> resp == StorageError(faults.detail)
      ensures faults.Survives(1) ==>
                var q := UserReports(reports, userId);
                && resp.status == 200 && resp.payload.Data?
                && |resp.payload.rows| == |q|
                && (forall k :: 0 <= k < |q| ==> resp.payload.rows[k] == Serialized(Fetch(q[k], None), iso))
      ensures faults.Survives(1) ==>
                forall row :: row in resp.payload.rows ==> row.userId == userId
      ensures faults.Survives(1) ==>
                forall r :: r in reports && r.userId == userId ==> Serialized(Fetch(r, None), iso) in resp.payload.rows
      ensures faults.Survives(1) && (forall r :: r in reports ==> r.userId != userId) ==>
                resp.payload.rows == []
    {
      if faults.connectFails {
        return CONNECTION_FAILED;
      }
      if !faults.Survives(1) {
        return StorageError(faults.detail);
      }
      var q := UserReports(reports, userId);
      var fetched := seq(|q|, k requires 0 <= k < |q| => Fetch(q[k], None));
      var rows := RewriteTimestamps(fetched, iso);
      resp := Listing(rows);
      UserReportsListing(reports, userId, iso, rows);
    }

    /** `DELETE /reports/<report_id>`. Statement 0 is the existence check,
        1 the delete and 2 the commit. The zero-row-count answer is kept
        although no sequential run reaches it. */
    method DeleteReport(reportId: nat, faults: Faults) returns (resp: Response)
      requires Valid()
      modifies this
      ensures Valid()
      ensures users == old(users) && nextUserId == old(nextUserId) && nextReportId == old(nextReportId)
      ensures faults.connectFails ==> resp == CONNECTION_FAILED && unchanged(this)
      ensures !faults.connectFails && !faults.Survives(1) ==>
                resp == StorageError(faults.detail) && unchanged(this)
      ensures faults.Survives(1) && !HasReport(old(reports), reportId) ==>
                resp == REPORT_NOT_FOUND && unchanged(this)
      ensures faults.Survives(1) && HasReport(old(reports), reportId) && !faults.Survives(3) ==>
                resp == StorageError(faults.detail) && unchanged(this)
      ensures faults.Survives(3) && HasReport(old(reports), reportId) ==>
                && resp == REPORT_DELETED
                && exists k :: 0 <= k < |old(reports)| && old(reports)[k].id == reportId
                               && reports == old(reports)[..k] + old(reports)[k + 1..]
      ensures resp == REPORT_DELETED ==> !HasReport(reports, reportId)
    {
      if faults.connectFails {
        return CONNECTION_FAILED;
      }
      if !faults.Survives(1) {
        return StorageError(faults.detail);
      }
      var found := FindReport(reports, reportId);
      if found.None? {
        return REPORT_NOT_FOUND;
      }
      if !faults.Survives(3) {
        return StorageError(faults.detail);
      }
      var remaining := WithoutId(reports, reportId);
      DeleteRemovesOneRow(reports, found.value);
      DeletePreservesIds(reports, found.value);
      var rowCount := |reports| - |remaining|;
      reports := remaining;
      if rowCount > 0 {
        resp := REPORT_DELETED;
      } else {
        resp := REPORT_ALREADY_DELETED;
      }
    }

    // -------------------------------------------------------------------
    // Consequences for sequences of requests

    /** A username registers once: after a success, registering it again
        never succeeds, and gives 409 once the lookup runs. */
    method RegisterTwice(body: Option<Credentials>, scheme: PasswordScheme,
                         salt1: string, salt2: string, faults1: Faults, faults2: Faults)
      returns (first: Response, second: Response)
      requires Valid()
      modifies this
      ensures Valid()
      ensures first == REGISTERED ==> second != REGISTERED
      ensures first == REGISTERED && faults2.Survives(1) ==> second == USERNAME_TAKEN
    {
      first := Register(body, scheme, salt1, faults1);
      if first == REGISTERED {
        assert users[|users| - 1].username == body.value.username.value;
      }
      second := Register(body, scheme, salt2, faults2);
    }

    /** A user who has just registered logs in with the same password and
        gets the id the registration assigned. */
    method RegisterThenLogin(username: string, password: string, scheme: PasswordScheme,
                             salt: string, faults1: Faults, faults2: Faults)
      returns (registered: Response, login: Response)
      requires Valid()
      requires Sound(scheme)
      modifies this
      ensures Valid()
      ensures registered == REGISTERED && faults2.Survives(1) ==>
                login == LoginSucceeded(old(nextUserId), username)
    {
      var body := Some(Credentials(Some(username), Some(password)));
      ghost var before := users;
      ghost var id := nextUserId;
      registered := Register(body, scheme, salt, faults1);
      if registered == REGISTERED {
        RegisteredUserLogsIn(before, id, username, password, salt, scheme);
        var u := User(id, username, scheme.generate(password, salt));
        assert users[|users| - 1] == u;
      }
      login := Login(body, scheme, faults2);
      if registered == REGISTERED && faults2.Survives(1) {
        var u := User(id, username, scheme.generate(password, salt));
        forall v | v in users && v.username == username
          ensures v == u
        {
          FindUserIsOnlyMatch(users, username, v);
          FindUserIsOnlyMatch(users, username, u);
        }
      }
    }

    /** A report submitted for user `userId` is in that user's listing
        right afterwards, once the listing's select runs. */
    method AddThenList(body: Option<ReportForm>, userId: nat, now: int, iso: int -> string,
                       faults1: Faults, faults2: Faults)
      returns (submitted: Response, listing: Response)
      requires Valid()
      modifies this
      ensures Valid()
      ensures submitted == REPORT_SUBMITTED && faults2.Survives(1) && !ReportDataMissing(body) &&
              body.value.userId == Some(userId) ==>
                var f := body.value;
                var report := Report(old(nextReportId), userId, f.latitude.value, f.longitude.value,
                                     f.trashType.value, f.quantity.value, f.imageBase64, f.notes, now);
                && listing.status == 200 && listing.payload.Data?
                && Serialized(Fetch(report, None), iso) in listing.payload.rows
    {
      submitted := AddReport(body, now, faults1);
      if submitted == REPORT_SUBMITTED {
        assert reports[|reports| - 1] in reports;
      }
      listing := GetUserReports(userId, iso, faults2);
    }

    /** Deleting a report twice: after a successful delete, the second
        delete of the same id gives 404 once its existence check runs. */
    method DeleteTwice(reportId: nat, faults1: Faults, faults2: Faults)
      returns (first: Response, second: Response)
      requires Valid()
      modifies this
      ensures Valid()
      ensures first == REPORT_DELETED && faults2.Survives(1) ==> second == REPORT_NOT_FOUND
    {
      first := DeleteReport(reportId, faults1);
      second := DeleteReport(reportId, faults2);
    }
  }
}

/** The exchange a first client goes through, request by request, with a
    storage layer that never fails. */
module Walkthrough {
  import opened Rows
  import opened Responses
  import opened Queries
  import opened WildWaste

  const ALICE := Some(Credentials(Some("alice"), Some("pw1")))
  const REPORT_FORM := Some(ReportForm(Some(1), Some(1.0), Some(2.0), Some("plastic"), Some(3), None, None))

  /** Registering alice twice: the second attempt is refused with 409. */
  method DuplicateRegistration(scheme: PasswordScheme, salt1: string, salt2: string)
  {
    var ok := Faults(false, None, "");
    var db := new Database();
    var r := db.Register(ALICE, scheme, salt1, ok);
    assert r == REGISTERED && db.users[0].username == "alice";
    r := db.Register(ALICE, scheme, salt2, ok);
    assert r == USERNAME_TAKEN;
    assert |db.users| == 1;
  }

  /** Alice, once registered, logs in and gets her id 1 back. */
  method SuccessfulLogin(scheme: PasswordScheme, salt: string)
    requires Sound(scheme)
  {
    var ok := Faults(false, None, "");
    var db := new Database();
    var r := db.Register(ALICE, scheme, salt, ok);
    var user := User(1, "alice", scheme.generate("pw1", salt));
    assert db.users == [user];
    assert user in db.users && scheme.check(user.passwordHash, "pw1");
    r := db.Login(ALICE, scheme, ok);
    assert r == LoginSucceeded(1, "alice");
  }

  /** A wrong password is answered with the same 401 as an unknown user. */
  method FailedLogins(scheme: PasswordScheme, salt: string)
    requires !scheme.check(scheme.generate("pw1", salt), "wrong")
  {
    var ok := Faults(false, None, "");
    var db := new Database();
    var r := db.Register(ALICE, scheme, salt, ok);
    var user := User(1, "alice", scheme.generate("pw1", salt));
    assert db.users == [user];
    r := db.Login(Some(Credentials(Some("alice"), Some("wrong"))), scheme, ok);
    assert r == INVALID_CREDENTIALS;
    r := db.Login(Some(Credentials(Some("bob"), Some("pw1"))), scheme, ok);
    assert r == INVALID_CREDENTIALS;
  }

  /** A submitted report appears in the map listing under its reporter's name. */
  method ReportOnTheMap(scheme: PasswordScheme, salt: string, iso: int -> string, now: int)
  {
    var ok := Faults(false, None, "");
    var db := new Database();
    var r := db.Register(ALICE, scheme, salt, ok);
    r := db.AddReport(REPORT_FORM, now, ok);
    var user := User(1, "alice", scheme.generate("pw1", salt));
    var report := Report(1, 1, 1.0, 2.0, "plastic", 3, None, None, now);
    assert db.reports == [report] && db.users == [user];
    ListedWithReporter(db, report, user, iso);
  }

  method ListedWithReporter(db: Database, report: Report, user: User, iso: int -> string)
    requires report in db.reports && user in db.users && report.userId == user.id
  {
    var r := db.GetAllReports(iso, Faults(false, None, ""));
    assert Published(Joined(report, user), iso) in r.payload.rows;
  }

  /** Deleting a report succeeds once; a second delete finds nothing. */
  method DeleteOnce(now: int)
  {
    var ok := Faults(false, None, "");
    var db := new Database();
    var r := db.AddReport(REPORT_FORM, now, ok);
    assert db.reports[0].id == 1;
    r := db.DeleteReport(1, ok);
    assert r == REPORT_DELETED && db.reports == [];
    r := db.DeleteReport(1, ok);
    assert r == REPORT_NOT_FOUND;
  }
}
