/** The values the WildWaste backend handles: request bodies, stored rows,
    fetched rows, the password-hashing pair and the per-request fault flags. */
module Rows {

  datatype Option<+T> = None | Some(value: T)

  /** A row of `users(id, username, password_hash)`. */
  datatype User = User(id: nat, username: string, passwordHash: string)

  /** A row of `trash_reports`; `reportedAt` is the server-assigned insertion time. */
  datatype Report = Report(
    id: nat,
    userId: int,
    latitude: real,
    longitude: real,
    trashType: string,
    quantity: int,
    imageBase64: Option<string>,
    notes: Option<string>,
    reportedAt: int)

  /** The `reported_at` column of a fetched row: the stored time, or the text
      that the listing handlers put in its place before answering. */
  datatype Timestamp = At(time: int) | Iso(text: string)

  /** A row as a listing query returns it; `username` is present only for the
      rows of the join with `users`. */
  datatype ReportRow = ReportRow(
    id: nat,
    userId: int,
    latitude: real,
    longitude: real,
    trashType: string,
    quantity: int,
    imageBase64: Option<string>,
    notes: Option<string>,
    reportedAt: Timestamp,
    username: Option<string>)

  /** A report paired with its reporter by the inner join. */
  datatype Joined = Joined(report: Report, reporter: User)

  /** The JSON body of `/register` and `/login`; a key that is absent is `None`. */
  datatype Credentials = Credentials(username: Option<string>, password: Option<string>)

  /** The JSON body of `POST /reports`; a key that is absent is `None`. */
  datatype ReportForm = ReportForm(
    userId: Option<int>,
    latitude: Option<real>,
    longitude: Option<real>,
    trashType: Option<string>,
    quantity: Option<int>,
    imageBase64: Option<string>,
    notes: Option<string>)

  /** The salted password hashing of the server: `generate(password, salt)`
      gives the text to store, `check(storedHash, password)` verifies a login. */
  datatype PasswordScheme = PasswordScheme(
    generate: (string, string) -> string,
    check: (string, string) -> bool)

  /** A scheme verifies every password against a hash generated from it. */
  ghost predicate Sound(scheme: PasswordScheme)
  {
    forall password, salt :: scheme.check(scheme.generate(password, salt), password)
  }

  /** What the storage layer does to one request: the connection cannot be
      obtained, or statement number `failingStatement` (counted from 0 in the
      order the handler issues them, a commit counting as one) raises an error
      whose text is `detail`. */
  datatype Faults = Faults(connectFails: bool, failingStatement: Option<nat>, detail: string)
  {
    /** The connection is obtained and the first `n` statements all succeed. */
    predicate Survives(n: nat)
    {
      !connectFails && (failingStatement.None? || failingStatement.value >= n)
    }
  }

  /** Converts a stored report into the row a query fetches. */
  function Fetch(r: Report, username: Option<string>): ReportRow
  {
    ReportRow(r.id, r.userId, r.latitude, r.longitude, r.trashType, r.quantity,
              r.imageBase64, r.notes, At(r.reportedAt), username)
  }

  /** The rewrite the listing handlers apply to each fetched row: the stored
      time is replaced by its ISO-8601 text, given by `iso`. */
  function Serialized(row: ReportRow, iso: int -> string): (r: ReportRow)
    ensures r.reportedAt.Iso?
    ensures row.reportedAt.At? ==> r.reportedAt == Iso(iso(row.reportedAt.time))
    ensures r == row.(reportedAt := r.reportedAt)
  {
    match row.reportedAt
    case At(t) => row.(reportedAt := Iso(iso(t)))
    case Iso(_) => row
  }
}
