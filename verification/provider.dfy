/**
 The remote movie-metadata provider, seen from the client: a request path
 goes out, and a reply comes back. The HTTP client and the JSON parser are
 not modelled; a reply is either nothing (transport failure), or a status
 code with a body that either failed to parse or parsed into an object.
 */
module Provider {

  /** The string-valued members of a JSON object. */
  type Fields = map<string, string>

  /** A parsed reply: its top-level members and the objects of its `Search` array. */
  datatype Payload = Payload(fields: Fields, search: seq<Fields>)

  /** `Malformed` carries the parser's `what()` text. */
  datatype Body = Malformed(what: string) | Json(payload: Payload)

  datatype Reply = NoResponse | HttpReply(status: int, body: Body)

  /** The provider as the client sees it: the reply to each request path. */
  type Network = string -> Reply

  /** `j.value(key, fallback)`: the member when present, else the fallback. */
  function Value(fields: Fields, key: string, fallback: string): (v: string)
    ensures key in fields ==> v == fields[key]
    ensures key !in fields ==> v == fallback
  {
    if key in fields then fields[key] else fallback
  }

  /** A reply arrived with status 200. */
  predicate Arrived(reply: Reply) {
    reply.HttpReply? && reply.status == 200
  }

  /** `j["Response"] == "True"`: the provider reports success. */
  predicate ReportsSuccess(p: Payload) {
    "Response" in p.fields && p.fields["Response"] == "True"
  }

  /** A reply arrived, parsed, and reports success. */
  predicate Succeeded(reply: Reply) {
    Arrived(reply) && reply.body.Json? && ReportsSuccess(reply.body.payload)
  }
}
