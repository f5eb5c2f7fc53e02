/**
 * The route table and dispatcher of internal/customFramework/server.go.
 *
 * A server keeps its routes in registration order. Registering a route
 * compiles its pattern (see module Patterns) and appends the route; serving a
 * request scans the routes in order, skips those whose method is neither the
 * request's method nor "ANY", and hands the request to the handler of the
 * first route whose matcher accepts the path, with the captured path
 * parameters bound by name. When no route qualifies the answer is
 * 404 Not Found (section 15.5.5 of RFC 9110).
 */
module Routing {
  import opened Patterns
  import opened Requests

  const MethodGet := "GET"
  const MethodPost := "POST"
  const MethodPut := "PUT"
  const MethodDelete := "DELETE"
  /** The method of routes registered with `Any`: they accept every request method. */
  const MethodAny := "ANY"

  /** The status of the router's reply when no route matches. */
  const StatusNotFound := 404

  /**
   * A registered route: its method, the declared pattern, the compiled matcher,
   * the placeholder names in order of appearance, and the handler (of the
   * caller's type `H`).
   */
  datatype Route<H> = Route(verb: string, pattern: string, matcher: seq<Token>, paramNames: seq<string>, handler: H)

  /** The route `registerRoute` builds: matcher and names both come from the pattern's placeholders. */
  function CompileRoute<H>(verb: string, pattern: string, handler: H): Route<H> {
    var ps := Scan(pattern);
    Route(verb, pattern, Tokens(ps), Names(ps), handler)
  }

  /** A route as registration leaves it: matcher and names compiled from its own pattern. */
  predicate Compiled<H>(r: Route<H>) {
    r.matcher == Tokens(Scan(r.pattern)) && r.paramNames == Names(Scan(r.pattern))
  }

  /** Registration's invariant: one parameter name per capture group of the matcher. */
  lemma CompiledRouteShape<H>(r: Route<H>)
    requires Compiled(r)
    ensures |r.paramNames| == CaptureCount(r.matcher)
    ensures forall n :: n in r.paramNames ==> IsCapture(n)
  {
    NamesMatchCaptures(Scan(r.pattern));
    ScanNamesAreCaptures(r.pattern);
  }

  /** The method test of the dispatcher: the route's method is the request's, or "ANY". */
  predicate Allows<H>(r: Route<H>, verb: string) {
    r.verb == verb || r.verb == MethodAny
  }

  /** The route passes both tests of the dispatcher for this request. */
  predicate Selects<H>(r: Route<H>, req: HttpRequest) {
    Allows(r, req.verb) && Match(r.matcher, req.path).Some?
  }

  /**
   * The parameter map built from the names and the captured groups: names are
   * bound in order, the i-th name to the i-th capture when there is one, so a
   * later occurrence of a repeated name overwrites an earlier one.
   */
  function Bind(names: seq<string>, caps: seq<string>): map<string, string>
    decreases |names|
  {
    if names == [] then map[]
    else
      var i := |names| - 1;
      var m := Bind(names[..i], caps);
      if i < |caps| then m[names[i] := caps[i]] else m
  }

  /**
   * With a capture for every name, every name is bound, nothing else is, and a
   * name is bound to the capture at its last occurrence.
   */
  lemma {:induction false} BindLastWins(names: seq<string>, caps: seq<string>)
    requires |names| <= |caps|
    ensures Bind(names, caps).Keys == set n | n in names
    ensures forall i :: 0 <= i < |names| && names[i] !in names[i + 1..] ==> Bind(names, caps)[names[i]] == caps[i]
    decreases |names|
  {
    if names != [] {
      var i := |names| - 1;
      var init := names[..i];
      BindLastWins(init, caps);
      assert names == init + [names[i]];
      forall k | 0 <= k < |names| && names[k] !in names[k + 1..]
        ensures Bind(names, caps)[names[k]] == caps[k]
      {
        if k < i {
          assert names[k + 1..] == init[k + 1..] + [names[i]];
          assert init[k] == names[k];
        }
      }
    }
  }

  /** What the dispatcher does with a request. */
  datatype Outcome<H> =
    | Invoke(index: nat, handler: H, request: Request)  // the handler of route `index` runs once, on `request`
    | NotFound(status: int)                              // no route qualified; the reply is this status

  /** The dispatcher's scan from route `i` on. */
  function DispatchFrom<H>(routes: seq<Route<H>>, req: HttpRequest, i: nat): (d: Outcome<H>)
    requires i <= |routes|
    ensures d.NotFound? <==> forall j :: i <= j < |routes| ==> !Selects(routes[j], req)
    ensures d.NotFound? ==> d.status == StatusNotFound
    ensures d.Invoke? ==> i <= d.index < |routes| && Selects(routes[d.index], req)
    ensures d.Invoke? ==> forall j :: i <= j < d.index ==> !Selects(routes[j], req)
    decreases |routes| - i
  {
    if i == |routes| then NotFound(StatusNotFound)
    else if Selects(routes[i], req) then
      var r := routes[i];
      Invoke(i, r.handler, Request(req, Bind(r.paramNames, Match(r.matcher, req.path).value)))
    else DispatchFrom(routes, req, i + 1)
  }

  /**
   * The dispatcher: the first route, in registration order, whose method
   * qualifies and whose matcher accepts the path gets the request, with its
   * captured groups bound to its parameter names; when there is none, 404.
   */
  function Dispatch<H>(routes: seq<Route<H>>, req: HttpRequest): (d: Outcome<H>)
    ensures d.NotFound? <==> forall j :: 0 <= j < |routes| ==> !Selects(routes[j], req)
    ensures d.NotFound? ==> d.status == StatusNotFound
    ensures d.Invoke? ==> d.index < |routes| && Selects(routes[d.index], req)
    ensures d.Invoke? ==> forall j :: 0 <= j < d.index ==> !Selects(routes[j], req)
    ensures d.Invoke? ==> d.handler == routes[d.index].handler && d.request.http == req
  {
    DispatchInvokes(routes, req, 0);
    DispatchFrom(routes, req, 0)
  }

  /** The handler and the request the scan hands over are those of the route it stops at. */
  lemma {:induction false} DispatchInvokes<H>(routes: seq<Route<H>>, req: HttpRequest, i: nat)
    requires i <= |routes|
    ensures var d := DispatchFrom(routes, req, i);
      d.Invoke? ==>
        var r := routes[d.index];
        d.handler == r.handler && d.request == Request(req, Bind(r.paramNames, Match(r.matcher, req.path).value))
    decreases |routes| - i
  {
    if i < |routes| && !Selects(routes[i], req) {
      DispatchInvokes(routes, req, i + 1);
    }
  }

  /**
   * What a handler can read of its path parameters: the captures spell the
   * path through the route's matcher, each is a non-empty run without '/',
   * `PathParam` of a name gives the capture at the name's last occurrence, and
   * of any other name the empty string.
   */
  lemma DispatchedParams<H>(routes: seq<Route<H>>, req: HttpRequest)
    requires forall j :: 0 <= j < |routes| ==> Compiled(routes[j])
    requires Dispatch(routes, req).Invoke?
    ensures var d := Dispatch(routes, req);
      var r := routes[d.index];
      var caps := Match(r.matcher, req.path).value;
      && |caps| == |r.paramNames|
      && Accepts(r.matcher, req.path, caps)
      && (forall i :: 0 <= i < |r.paramNames| && r.paramNames[i] !in r.paramNames[i + 1..] ==>
            d.request.PathParam(r.paramNames[i]) == caps[i])
      && (forall n :: n !in r.paramNames ==> d.request.PathParam(n) == "")
  {
    var d := Dispatch(routes, req);
    var r := routes[d.index];
    var caps := Match(r.matcher, req.path).value;
    DispatchInvokes(routes, req, 0);
    MatchSound(r.matcher, req.path);
    CompiledRouteShape(r);
    BindLastWins(r.paramNames, caps);
  }

  /**
   * The route table is append-only and first match wins: a request that an
   * existing route already answers is dispatched the same way after any later
   * registration; one that nothing answered goes to the new route exactly
   * when that route qualifies.
   */
  lemma AppendKeepsDispatch<H>(routes: seq<Route<H>>, r: Route<H>, req: HttpRequest)
    ensures Dispatch(routes, req).Invoke? ==> Dispatch(routes + [r], req) == Dispatch(routes, req)
    ensures Dispatch(routes, req).NotFound? ==>
      (Dispatch(routes + [r], req).Invoke? <==> Selects(r, req))
    ensures Dispatch(routes, req).NotFound? && Selects(r, req) ==>
      Dispatch(routes + [r], req).index == |routes| && Dispatch(routes + [r], req).handler == r.handler
  {
    AppendKeepsDispatchFrom(routes, r, req, 0);
    assert (routes + [r])[|routes|] == r;
  }

  lemma {:induction false} AppendKeepsDispatchFrom<H>(routes: seq<Route<H>>, r: Route<H>, req: HttpRequest, i: nat)
    requires i <= |routes|
    ensures DispatchFrom(routes, req, i).Invoke? ==> DispatchFrom(routes + [r], req, i) == DispatchFrom(routes, req, i)
    ensures DispatchFrom(routes, req, i).NotFound? ==>
      (DispatchFrom(routes + [r], req, i).Invoke? <==> Selects(r, req))
    ensures DispatchFrom(routes, req, i).NotFound? && Selects(r, req) ==>
      DispatchFrom(routes + [r], req, i).index == |routes| && DispatchFrom(routes + [r], req, i).handler == r.handler
    decreases |routes| - i
  {
    var all := routes + [r];
    if i < |routes| {
      assert all[i] == routes[i];
      if !Selects(routes[i], req) {
        AppendKeepsDispatchFrom(routes, r, req, i + 1);
      }
    }
  }

  /**
   * First match wins: of two routes with the same method and pattern, the
   * later one never receives a request.
   */
  lemma ShadowedRouteNeverRuns<H>(routes: seq<Route<H>>, i: nat, j: nat, req: HttpRequest)
    requires i < j < |routes|
    requires routes[i].verb == routes[j].verb && routes[i].matcher == routes[j].matcher
    ensures !(Dispatch(routes, req).Invoke? && Dispatch(routes, req).index == j)
  {
  }

  /** The server: its table of routes, in registration order. */
  class Server<H> {
    var routes: seq<Route<H>>

    /** Every route in the table was compiled from its own pattern. */
    ghost predicate Valid()
      reads this
    {
      forall j :: 0 <= j < |routes| ==> Compiled(routes[j])
    }

    /** NewServer: an empty route table. */
    constructor ()
      ensures Valid() && routes == []
    {
      routes := [];
    }

    /**
     * registerRoute: collects the placeholder names in order, rewrites each
     * placeholder of the pattern, first occurrence first, into a capture, and
     * appends the compiled route. The pattern's literal text must be free of
     * regular-expression metacharacters, since it is not escaped.
     */
    method RegisterRoute(verb: string, pattern: string, handler: H)
      requires Valid() && SafePattern(pattern)
      modifies this
      ensures Valid()
      ensures routes == old(routes) + [CompileRoute(verb, pattern, handler)]
    {
      var paramNames: seq<string> := [];
      var regexPattern := Chars(pattern);
      var matches := Occurrences(Scan(pattern));
      ghost var all := Scan(pattern);
      ghost var done: seq<Piece> := [];
      ghost var rest := pattern;
      var k := 0;
      while k < |matches|
        invariant 0 <= k <= |matches|
        invariant routes == old(routes)
        invariant all == done + Scan(rest)
        invariant LiteralsSafe(done) && LiteralsSafe(Scan(rest))
        invariant |Occurrences(done)| == k && matches[k..] == Occurrences(Scan(rest))
        invariant paramNames == Names(done)
        invariant regexPattern == Tokens(done) + Chars(rest)
      {
        var m := matches[k];
        ghost var lit, name, q := SplitFirst(rest);
        CompileRound(all, done, rest, lit, name, q, Scan(rest), Scan(q), matches[k..]);
        assert m == matches[k..][0] && matches[k + 1..] == matches[k..][1..];
        paramNames := paramNames + [m.name];
        regexPattern := ReplaceFirst(regexPattern, Chars(m.text), [Capture]);
        done, rest := done + Literals(lit) + [Placeholder(name)], q;
        k := k + 1;
      }
      assert Occurrences(Scan(rest)) == [] by {
        assert matches[k..] == [];
      }
      NoOccurrencesAllLiteral(rest);
      CompileFinish(all, done, rest, Scan(rest));
      var route := Route(verb, pattern, regexPattern, paramNames, handler);
      assert route == CompileRoute(verb, pattern, handler);
      routes := routes + [route];
    }

    /** Get: registers a route for method GET. */
    method Get(pattern: string, handler: H)
      requires Valid() && SafePattern(pattern)
      modifies this
      ensures Valid() && routes == old(routes) + [CompileRoute(MethodGet, pattern, handler)]
    {
      RegisterRoute(MethodGet, pattern, handler);
    }

    /** Post: registers a route for method POST. */
    method Post(pattern: string, handler: H)
      requires Valid() && SafePattern(pattern)
      modifies this
      ensures Valid() && routes == old(routes) + [CompileRoute(MethodPost, pattern, handler)]
    {
      RegisterRoute(MethodPost, pattern, handler);
    }

    /** Put: registers a route for method PUT. */
    method Put(pattern: string, handler: H)
      requires Valid() && SafePattern(pattern)
      modifies this
      ensures Valid() && routes == old(routes) + [CompileRoute(MethodPut, pattern, handler)]
    {
      RegisterRoute(MethodPut, pattern, handler);
    }

    /** Delete: registers a route for method DELETE. */
    method Delete(pattern: string, handler: H)
      requires Valid() && SafePattern(pattern)
      modifies this
      ensures Valid() && routes == old(routes) + [CompileRoute(MethodDelete, pattern, handler)]
    {
      RegisterRoute(MethodDelete, pattern, handler);
    }

    /** Any: registers a route that accepts every request method. */
    method Any(pattern: string, handler: H)
      requires Valid() && SafePattern(pattern)
      modifies this
      ensures Valid() && routes == old(routes) + [CompileRoute(MethodAny, pattern, handler)]
    {
      RegisterRoute(MethodAny, pattern, handler);
    }

    /**
     * ServeHTTP: scans the routes in order, skipping those whose method does
     * not qualify, and stops at the first whose matcher accepts the path,
     * binding its captures to its parameter names; otherwise replies 404.
     */
    method ServeHTTP(req: HttpRequest) returns (d: Outcome<H>)
      ensures d == Dispatch(routes, req)
    {
      var i := 0;
      while i < |routes|
        invariant 0 <= i <= |routes|
        invariant DispatchFrom(routes, req, i) == Dispatch(routes, req)
      {
        var route := routes[i];
        if route.verb != req.verb && route.verb != MethodAny {
          i := i + 1;
          continue;
        }
        var matches := Match(route.matcher, req.path);
        if matches.Some? {
          var caps := matches.value;
          var params := map[];
          var n := 0;
          while n < |route.paramNames|
            invariant 0 <= n <= |route.paramNames|
            invariant params == Bind(route.paramNames[..n], caps)
          {
            if n < |caps| {
              params := params[route.paramNames[n] := caps[n]];
            }
            assert route.paramNames[..n + 1][..n] == route.paramNames[..n];
            n := n + 1;
          }
          assert route.paramNames[..n] == route.paramNames;
          d := Invoke(i, route.handler, Request(req, params));
          return;
        }
        i := i + 1;
      }
      d := NotFound(StatusNotFound);
    }
  }

  /** After registerRoute's loop: the text left over is literal and compiles to itself. */
  lemma CompileFinish(patternPieces: seq<Piece>, done: seq<Piece>, rest: string, restPieces: seq<Piece>)
    requires patternPieces == done + restPieces && restPieces == Literals(rest)
    ensures Tokens(patternPieces) == Tokens(done) + Chars(rest)
    ensures Names(patternPieces) == Names(done)
  {
    LiteralsCompile(rest);
    TokensAppend(done, restPieces);
    NamesAppend(done, restPieces);
    assert Names(done) + [] == Names(done);
  }

  /**
   * One round of registerRoute's loop, on the ghost bookkeeping: the match at
   * hand is the first placeholder of the text left, and moving it with the
   * literals before it to the finished pieces keeps every invariant.
   */
  lemma CompileRound(all: seq<Piece>, done: seq<Piece>, rest: string, lit: string, name: string, q: string,
                     restPieces: seq<Piece>, qPieces: seq<Piece>, pending: seq<Occurrence>)
    requires all == done + restPieces
    requires LiteralsSafe(done) && LiteralsSafe(restPieces)
    requires pending == Occurrences(restPieces)
    requires rest == lit + RenderPiece(Placeholder(name)) + q
    requires restPieces == Literals(lit) + [Placeholder(name)] + qPieces
    ensures var done' := done + Literals(lit) + [Placeholder(name)];
      && all == done' + qPieces
      && LiteralsSafe(done') && LiteralsSafe(qPieces)
      && pending != [] && pending[0] == Occurrence(RenderPiece(Placeholder(name)), name)
      && pending[1..] == Occurrences(qPieces)
      && |Occurrences(done')| == |Occurrences(done)| + 1
      && Names(done') == Names(done) + [name]
      && ReplaceFirst(Tokens(done) + Chars(rest), Chars(pending[0].text), [Capture]) == Tokens(done') + Chars(q)
  {
    CompileStep(done, rest, lit, name, q, restPieces, qPieces);
    ShiftPieces(all, done, Literals(lit), Placeholder(name), restPieces, qPieces);
  }

  /** One round of registerRoute's loop: the first placeholder of the rest is rewritten in place. */
  lemma CompileStep(done: seq<Piece>, rest: string, lit: string, name: string, q: string, restPieces: seq<Piece>, qPieces: seq<Piece>)
    requires LiteralsSafe(done) && LiteralsSafe(restPieces)
    requires rest == lit + RenderPiece(Placeholder(name)) + q
    requires restPieces == Literals(lit) + [Placeholder(name)] + qPieces
    ensures var text := RenderPiece(Placeholder(name));
      ReplaceFirst(Tokens(done) + Chars(rest), Chars(text), [Capture])
        == Tokens(done + Literals(lit) + [Placeholder(name)]) + Chars(q)
    ensures LiteralsSafe(done + Literals(lit) + [Placeholder(name)]) && LiteralsSafe(qPieces)
    ensures Names(done + Literals(lit) + [Placeholder(name)]) == Names(done) + [name]
    ensures Occurrences(done + Literals(lit) + [Placeholder(name)])
         == Occurrences(done) + [Occurrence(RenderPiece(Placeholder(name)), name)]
    ensures Occurrences(restPieces) == [Occurrence(RenderPiece(Placeholder(name)), name)] + Occurrences(qPieces)
  {
    var lits := Literals(lit);
    var head := lits + [Placeholder(name)];
    assert restPieces == head + qPieces;
    SafeAppend(head, qPieces);
    SafeAppend(lits, [Placeholder(name)]);
    SafeAppend(done, head);
    assert done + lits + [Placeholder(name)] == done + head;
    var occ := Occurrence(RenderPiece(Placeholder(name)), name);
    LiteralsCompile(lit);
    SinglePlaceholder(name);
    assert Names(head) == [name] by {
      NamesAppend(lits, [Placeholder(name)]);
    }
    assert Occurrences(head) == [occ] by {
      OccurrencesAppend(lits, [Placeholder(name)]);
    }
    NamesAppend(done, head);
    OccurrencesAppend(done, head);
    OccurrencesAppend(head, qPieces);
    RewriteFirstPlaceholder(done, lit, name, q);
  }

  /** Moving one placeholder and the literals before it from the pending pieces to the finished ones. */
  lemma ShiftPieces(all: seq<Piece>, done: seq<Piece>, lits: seq<Piece>, p: Piece, restPieces: seq<Piece>, qPieces: seq<Piece>)
    requires all == done + restPieces && restPieces == lits + [p] + qPieces
    ensures all == (done + lits + [p]) + qPieces
  {
  }

  lemma SinglePlaceholder(name: string)
    ensures Names([Placeholder(name)]) == [name]
    ensures Occurrences([Placeholder(name)]) == [Occurrence(RenderPiece(Placeholder(name)), name)]
    ensures Tokens([Placeholder(name)]) == [Capture]
  {
    assert [Placeholder(name)][1..] == [];
  }

  /** Literal text is safe piece by piece. */
  lemma SafeAppend(a: seq<Piece>, b: seq<Piece>)
    ensures LiteralsSafe(a + b) <==> LiteralsSafe(a) && LiteralsSafe(b)
  {
    if LiteralsSafe(a + b) {
      forall i | 0 <= i < |a| && a[i].Literal? ensures !RegexMeta(a[i].c) {
        assert (a + b)[i] == a[i];
      }
      forall i | 0 <= i < |b| && b[i].Literal? ensures !RegexMeta(b[i].c) {
        assert (a + b)[|a| + i] == b[i];
      }
    }
  }

  /**
   * strings.Replace on the partly rewritten expression hits the placeholder
   * about to be rewritten: no literal '{' comes before it.
   */
  lemma RewriteFirstPlaceholder(done: seq<Piece>, lit: string, name: string, q: string)
    requires LiteralsSafe(done + Literals(lit))
    ensures var text := RenderPiece(Placeholder(name));
      ReplaceFirst(Tokens(done) + Chars(lit + text + q), Chars(text), [Capture])
        == Tokens(done + Literals(lit) + [Placeholder(name)]) + Chars(q)
  {
    var text := RenderPiece(Placeholder(name));
    var lits := Literals(lit);
    var before := Tokens(done) + Chars(lit);
    assert Tokens(done) + Chars(lit + text + q) == before + Chars(text) + Chars(q) by {
      CharsAppend(lit + text, q);
      CharsAppend(lit, text);
    }
    assert Char('{') !in before by {
      LiteralsCompile(lit);
      TokensAppend(done, lits);
      SafeTokensHaveNoBrace(done + lits);
    }
    assert Chars(text) != [] && Chars(text)[0] == Char('{');
    ReplaceFirstAt(before, Chars(text), Chars(q), [Capture]);
    assert Tokens(done + lits + [Placeholder(name)]) == before + [Capture] by {
      LiteralsCompile(lit);
      TokensAppend(done, lits);
      TokensAppend(done + lits, [Placeholder(name)]);
      SinglePlaceholder(name);
    }
  }
}
