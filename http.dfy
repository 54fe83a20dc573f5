/**
 * The HTTP boundary of `dino`: `get_data` (src/dino.py:31-53), which turns
 * a `requests` call into a `(data, status)` pair, and `check_server`
 * (src/dino.py:90-98), the liveness test built on it.  The network itself
 * is an oracle: for each request it either raises (with an uninterpreted
 * message, Python's `str(e)`) or answers with a body and a status code.
 */
module Http {
  import opened Wrappers

  datatype Request = Get(url: string) | Post(url: string)

  /** What `requests.get`/`requests.post` does: raise, or return a response. */
  datatype Transport = Raised(message: string) | Response(text: string, status: int)

  /** The network as seen by one run of the program. */
  type Network = Request -> Transport

  /** The first half of the pair `get_data` returns: `r.text` or `{'error': str(e)}`. */
  datatype Payload = Text(text: string) | ErrorDict(error: string)

  datatype Reply = Reply(data: Payload, status: int)

  /** The status `get_data` reports for a request that raised. */
  const TransportErrorStatus: int := 400

  /** `get_data` method codes. */
  const MethodGet: int := 0
  const MethodPost: int := 1

  /**
   * The uniform result of one call: a raised request becomes the error
   * payload with status 400; a response passes through unchanged.
   */
  function Normalise(t: Transport): (r: Reply)
    ensures r.data.ErrorDict? <==> t.Raised?
    ensures t.Raised? ==> r.status == TransportErrorStatus && r.data.error == t.message
    ensures t.Response? ==> r.data.text == t.text && r.status == t.status
  {
    match t
    case Raised(m) => Reply(ErrorDict(m), TransportErrorStatus)
    case Response(body, status) => Reply(Text(body), status)
  }

  /** Reads back which transport outcome a reply came from. */
  function Denormalise(r: Reply): Transport {
    match r.data
    case ErrorDict(m) => Raised(m)
    case Text(body) => Response(body, r.status)
  }

  /** Normalising loses nothing: the outcome can be recovered from the reply. */
  lemma NormaliseLossless(t: Transport)
    ensures Denormalise(Normalise(t)) == t
  {
  }

  /** The request `get_data(url, None, method)` sends: the URL gets an `http://` prefix. */
  function RequestFor(url: string, code: int): (q: Request)
    requires code == MethodGet || code == MethodPost
    ensures q.url == "http://" + url
    ensures q.Get? <==> code == MethodGet
  {
    if code == MethodGet then Get("http://" + url) else Post("http://" + url)
  }

  /**
   * `get_data(url, None, method)`: `None` for an unknown method code,
   * otherwise the normalised outcome of the matching request.
   */
  function GetData(url: string, code: int, net: Network): (r: Option<Reply>)
    ensures r.None? <==> code != MethodGet && code != MethodPost
    ensures r.Some? ==> Denormalise(r.value) == net(RequestFor(url, code))
  {
    if code == MethodGet then Some(Normalise(net(Get("http://" + url))))
    else if code == MethodPost then Some(Normalise(net(Post("http://" + url))))
    else None
  }

  /** A raised request always reads as status 400 with its message as the error. */
  lemma TransportFailureIs400(url: string, code: int, net: Network)
    requires code == MethodGet || code == MethodPost
    requires net(RequestFor(url, code)).Raised?
    ensures GetData(url, code, net) == Some(Reply(ErrorDict(net(RequestFor(url, code)).message), 400))
  {
  }

  /** `check_server`: the base address answers a GET with status exactly 200. */
  function CheckServer(base: string, net: Network): (live: bool)
    ensures live <==> net(Get("http://" + base)).Response? && net(Get("http://" + base)).status == 200
  {
    var reply := GetData(base, MethodGet, net).value;
    reply.status == 200
  }
}
