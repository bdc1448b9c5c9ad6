/** The response envelope of every endpoint and the fixed responses the
    handlers give. */
module Responses {
  import opened Rows

  /** The JSON body: `{"status": "error"|"success", "message": ...}`, the login
      answer with the user's id and name, or a listing under `data`. */
  datatype Payload =
    | Error(message: string)
    | Success(message: string)
    | LoggedIn(message: string, userId: nat, username: string)
    | Data(rows: seq<ReportRow>)

  datatype Response = Response(status: int, payload: Payload)

  const MISSING_CREDENTIALS := Response(400, Error("Missing username or password"))
  const MISSING_REPORT_DATA := Response(400, Error("Missing required report data"))
  const CONNECTION_FAILED := Response(500, Error("Database connection failed"))
  const USERNAME_TAKEN := Response(409, Error("Username already exists"))
  const REGISTERED := Response(201, Success("User registered successfully"))
  const INVALID_CREDENTIALS := Response(401, Error("Invalid username or password"))
  const REPORT_SUBMITTED := Response(201, Success("Report submitted successfully"))
  const REPORT_NOT_FOUND := Response(404, Error("Report not found"))
  const REPORT_DELETED := Response(200, Success("Report deleted successfully"))
  const REPORT_ALREADY_DELETED := Response(404, Error("Report not found or already deleted"))

  /** A statement raised a storage error; its text is passed on to the client. */
  function StorageError(detail: string): Response
  {
    Response(500, Error(detail))
  }

  function LoginSucceeded(userId: nat, username: string): Response
  {
    Response(200, LoggedIn("Login successful", userId, username))
  }

  function Listing(rows: seq<ReportRow>): Response
  {
    Response(200, Data(rows))
  }
}
