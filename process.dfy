/**
 * What the three merge-gating scripts share: the shape of an HTTP response
 * as the scripts see it, the `assert status_code == 200` guard, and the
 * observable result of a run (console lines plus an exit code).
 */
module Process {

  datatype Option<T> = None | Some(value: T)

  /** One answer of the hosting API: the HTTP status and the decoded JSON body. */
  datatype Response<T> = Response(status: int, body: T)

  /** The HTTP status the scripts accept; anything else trips their `assert`. */
  const HTTP_OK: int := 200

  /** The value a fetching helper returns, or the assertion that stopped it. */
  datatype Fetched<T> = Ok(value: T) | BadResponse(message: string)

  /**
   * What a script run produces. `Exit` is a normal end (an explicit `exit(code)`
   * or falling off the end of the script, which is code 0) with the lines it
   * printed; `AssertionFailed` is an uncaught `AssertionError` raised by a bad
   * HTTP status: the interpreter ends with exit status 1 and a traceback,
   * before any decision is made.
   */
  datatype Outcome = Exit(code: int, log: seq<string>) | AssertionFailed(message: string)

  /** The guard every fetching helper runs before it reads the body. */
  function Expect200<T>(resp: Response<T>, message: string): (r: Fetched<T>)
    ensures r.Ok? <==> resp.status == HTTP_OK
    ensures r.Ok? ==> r.value == resp.body
    ensures r.BadResponse? ==> r.message == message
  {
    if resp.status == HTTP_OK then Ok(resp.body) else BadResponse(message)
  }
}
