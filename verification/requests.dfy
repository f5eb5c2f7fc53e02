/**
 * The request context handed to a route handler (internal/customFramework/request.go):
 * the incoming request together with the path parameters bound by the router,
 * and the accessors that expose headers, query parameters and path parameters.
 */
module Requests {

  /**
   * The parts of an incoming HTTP request the router and the accessors read:
   * the method (`verb`), the URL path, the header map and the already parsed
   * query parameters, each key with all of its values in order.
   */
  datatype HttpRequest = HttpRequest(
    verb: string,
    path: string,
    header: map<string, seq<string>>,
    query: map<string, seq<string>>)

  /** What `Headers` and `Query` expose for a key: a single string, or the full list of values. */
  datatype Value = Scalar(value: string) | List(values: seq<string>)

  /**
   * The collapsing rule of `Headers` and `Query`: a key with exactly one value
   * maps to that value, a key with any other number of values (none, or
   * several) maps to all of them; nothing else is added or lost.
   */
  method Collapse(m: map<string, seq<string>>) returns (out: map<string, Value>)
    ensures out.Keys == m.Keys
    ensures forall k :: k in m && |m[k]| == 1 ==> out[k] == Scalar(m[k][0])
    ensures forall k :: k in m && |m[k]| != 1 ==> out[k] == List(m[k])
  {
    out := map[];
    var todo := m.Keys;
    while todo != {}
      invariant todo <= m.Keys
      invariant out.Keys == m.Keys - todo
      invariant forall k :: k in out && |m[k]| == 1 ==> out[k] == Scalar(m[k][0])
      invariant forall k :: k in out && |m[k]| != 1 ==> out[k] == List(m[k])
      decreases todo
    {
      var key :| key in todo;
      var values := m[key];
      if |values| == 1 {
        out := out[key := Scalar(values[0])];
      } else {
        out := out[key := List(values)];
      }
      todo := todo - {key};
    }
  }

  /** The request a handler receives: the incoming request and the path parameters of its route. */
  datatype Request = Request(http: HttpRequest, params: map<string, string>) {

    /** Every header, single-valued ones as a string, the others as their list of values. */
    method Headers() returns (h: map<string, Value>)
      ensures h.Keys == http.header.Keys
      ensures forall k :: k in http.header && |http.header[k]| == 1 ==> h[k] == Scalar(http.header[k][0])
      ensures forall k :: k in http.header && |http.header[k]| != 1 ==> h[k] == List(http.header[k])
    {
      h := Collapse(http.header);
    }

    /** Every query parameter, collapsed by the same rule as the headers. */
    method Query() returns (q: map<string, Value>)
      ensures q.Keys == http.query.Keys
      ensures forall k :: k in http.query && |http.query[k]| == 1 ==> q[k] == Scalar(http.query[k][0])
      ensures forall k :: k in http.query && |http.query[k]| != 1 ==> q[k] == List(http.query[k])
    {
      q := Collapse(http.query);
    }

    /** The value bound to path parameter `name`, or the empty string when the route bound none. */
    function PathParam(name: string): (v: string)
      ensures name in params ==> v == params[name]
      ensures name !in params ==> v == ""
    {
      if name in params then params[name] else ""
    }
  }
}
