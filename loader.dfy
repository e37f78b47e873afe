/** How a dataset request ends, as both pages' loaders see it: the request
    is made, a response with a status outside 200-299 is turned into an
    `HTTP <status>` error, and otherwise the body is parsed; the chain settles
    with a dataset or with an error message. The network itself is not modelled: the outcome of a
    request is an input. */
module Loader {
  import opened Seqs
  import opened Graph
  import Paths

  /** What reading the response body gives: a dataset, or the message of the
      error that reading or parsing it raised. */
  datatype Body = Dataset(graph: Graph) | Unreadable(message: string)

  /** How a request ends: `fetch` rejects with an error, or a response
      arrives with its status code and body. */
  datatype FetchOutcome = NetworkError(message: string) | Response(status: nat, body: Body)

  /** `res.ok`: a status in the range 200-299. */
  predicate StatusOk(status: nat) {
    200 <= status <= 299
  }

  /** The message of the error raised for a non-ok status: `HTTP ` and the
      status in decimal. */
  function HttpError(status: nat): string {
    "HTTP " + Paths.NatToString(status)
  }

  /** The value the chain settles with. A non-ok status fails before the body
      is read, so its message is always the HTTP one. */
  function Resolve(o: FetchOutcome): (r: Result<Graph, string>)
    ensures r.Ok? <==> o.Response? && StatusOk(o.status) && o.body.Dataset?
    ensures r.Ok? ==> r.value == o.body.graph
    ensures o.Response? && !StatusOk(o.status) ==> r == Err(HttpError(o.status))
    ensures o.Response? && StatusOk(o.status) && o.body.Unreadable? ==> r == Err(o.body.message)
    ensures o.NetworkError? ==> r == Err(o.message)
  {
    match o
    case NetworkError(msg) => Err(msg)
    case Response(status, body) =>
      if !StatusOk(status) then Err(HttpError(status))
      else match body
        case Dataset(g) => Ok(g)
        case Unreadable(msg) => Err(msg)
  }

  /** JavaScript truthiness of an `error` state: `null` and `""` are falsy,
      so a conditional on the error shows only a non-empty message. */
  predicate Shows(error: Option<string>) {
    error.Some? && error.value != ""
  }

  /** Reads the status code back out of an HTTP error message. */
  function ParseHttpError(msg: string): Option<nat> {
    if |msg| > 5 && msg[..5] == "HTTP " && forall i :: 5 <= i < |msg| ==> Paths.IsDigit(msg[i])
    then Some(Paths.DigitsValue(msg[5..]))
    else None
  }

  /** An HTTP error message names its status and is never empty, so a page
      always shows it. */
  lemma HttpErrorRoundTrip(status: nat)
    ensures ParseHttpError(HttpError(status)) == Some(status)
    ensures Shows(Some(HttpError(status)))
  {
    var digits := Paths.NatToString(status);
    assert HttpError(status)[..5] == "HTTP ";
    assert HttpError(status)[5..] == digits;
    Paths.NatToStringRoundTrip(status);
  }
}
