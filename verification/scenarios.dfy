/**
 * Worked examples from the demonstration server of main.go: the route
 * `/users/{id}` registered for GET receives `GET /users/42` with path
 * parameter id = 42, and the `/stream` handler's Header, Write and End calls
 * send one status line and the chunks in order.
 */
module Scenarios {
  import opened Common
  import opened Patterns
  import opened Requests
  import opened Routing
  import opened Responses

  /** `{id}` on its own is one placeholder named id. */
  lemma IdPlaceholder()
    ensures Scan("{id}") == [Placeholder("id")]
  {
    assert SegmentEnd("{id}", 1) == 4;
    assert LastClose("{id}", 4) == 3;
    assert "{id}"[1..3] == "id" && "{id}"[4..] == [];
  }

  /** Literal text followed by one placeholder compiles to its characters and one capture. */
  lemma CompileLiteralThenPlaceholder(s: string, name: string, ps: seq<Piece>)
    requires ps == Literals(s) + [Placeholder(name)]
    ensures Tokens(ps) == Chars(s) + [Capture] && Names(ps) == [name]
  {
    LiteralsCompile(s);
    TokensAppend(Literals(s), [Placeholder(name)]);
    NamesAppend(Literals(s), [Placeholder(name)]);
    SinglePlaceholder(name);
  }

  /** The pattern compiles to the literal prefix and one capture, named id. */
  lemma UsersPattern()
    ensures Tokens(Scan("/users/{id}")) == Chars("/users/") + [Capture]
    ensures Names(Scan("/users/{id}")) == ["id"]
  {
    assert "/users/{id}" == "/users/" + "{id}";
    ScanLiteralPrefix("/users/", "{id}");
    IdPlaceholder();
    CompileLiteralThenPlaceholder("/users/", "id", Scan("/users/{id}"));
  }

  lemma ConsAppend<T>(s: seq<T>, t: seq<T>)
    requires s != []
    ensures s + t == [s[0]] + (s[1..] + t)
  {
  }

  /** Literal tokens spell their own characters ahead of the rest. */
  lemma {:induction false} FillChars(s: string, ts: seq<Token>, caps: seq<string>)
    requires |caps| == CaptureCount(ts)
    ensures CaptureCount(Chars(s) + ts) == CaptureCount(ts)
    ensures Fill(Chars(s) + ts, caps) == s + Fill(ts, caps)
    decreases |s|
  {
    if s == [] {
      assert Chars(s) + ts == ts;
    } else {
      FillChars(s[1..], ts, caps);
      ConsAppend(Chars(s), ts);
      ConsAppend(s, Fill(ts, caps));
    }
  }

  /** A capture after literal text spells the text followed by the captured string. */
  lemma FillAfterLiteral(s: string, c: string)
    ensures CaptureCount(Chars(s) + [Capture]) == 1
    ensures Fill(Chars(s) + [Capture], [c]) == s + c
  {
    assert CaptureCount([Capture]) == 1 && Fill([Capture], [c]) == c + Fill([], []) by {
      assert [Capture][1..] == [];
      assert [c][1..] == [];
    }
    FillChars(s, [Capture], [c]);
  }

  /** The compiled matcher accepts the path, capturing exactly "42". */
  lemma UsersMatch()
    ensures Match(Chars("/users/") + [Capture], "/users/42") == Some(["42"])
  {
    var ts := Chars("/users/") + [Capture];
    var path := "/users/42";
    FillAfterLiteral("/users/", "42");
    MatchComplete(ts, path, ["42"]);
    MatchSound(ts, path);
    var v := Match(ts, path).value;
    FillAfterLiteral("/users/", v[0]);
    assert v == [v[0]];
    assert v[0] == path[7..];
    assert path[7..] == "42";
  }

  /** A table of one route with one parameter: a request it selects runs it, with the capture bound. */
  lemma OneRoute<H>(r: Route<H>, req: HttpRequest, name: string, cap: string)
    requires Allows(r, req.verb) && Match(r.matcher, req.path) == Some([cap]) && r.paramNames == [name]
    ensures Dispatch([r], req).Invoke? && Dispatch([r], req).request.PathParam(name) == cap
  {
    DispatchInvokes([r], req, 0);
    assert [name][..0] == [];
  }

  /** The request reaches the route's handler, and PathParam("id") reads "42". */
  lemma UsersRoute<H>(h: H)
    ensures var d := Dispatch([CompileRoute(MethodGet, "/users/{id}", h)], HttpRequest("GET", "/users/42", map[], map[]));
      d.Invoke? && d.request.PathParam("id") == "42"
  {
    UsersPattern();
    UsersMatch();
    OneRoute(CompileRoute(MethodGet, "/users/{id}", h), HttpRequest("GET", "/users/42", map[], map[]), "id", "42");
  }

  /** One Write call per chunk, in order. */
  function Writes(chunks: seq<seq<byte>>): (calls: seq<Call>)
    ensures |calls| == |chunks|
    ensures forall i :: 0 <= i < |chunks| ==> calls[i] == Call.Write(chunks[i])
  {
    if chunks == [] then [] else [Call.Write(chunks[0])] + Writes(chunks[1..])
  }

  /** The chunks run together. */
  function Concat(chunks: seq<seq<byte>>): seq<byte>
  {
    if chunks == [] then [] else chunks[0] + Concat(chunks[1..])
  }

  lemma {:induction false} PayloadWrites(chunks: seq<seq<byte>>)
    ensures Payload(Writes(chunks)) == Concat(chunks)
    decreases |chunks|
  {
    if chunks != [] {
      PayloadWrites(chunks[1..]);
      assert Writes(chunks)[1..] == Writes(chunks[1..]);
    }
  }

  /**
   * The `/stream` handler: a Content-Type header, then one Write per chunk,
   * then End. The first Write commits 200 with the header set before it, so
   * End finds the response committed and adds nothing: one status line, and
   * the body is the chunks in order.
   */
  lemma StreamHandler(chunks: seq<seq<byte>>)
    requires chunks != []
    ensures var r := Run(Fresh(), [SetHeader(ContentType, "text/plain")] + Writes(chunks) + [Call.End]);
      && StatusCodes(r.wire) == [StatusOK]
      && FirstStatusLine(r.wire) == Some(StatusLine(StatusOK, map[ContentType := "text/plain"]))
      && Body(r.wire) == Concat(chunks)
  {
    var hdr := SetHeader(ContentType, "text/plain");
    var a := [hdr] + Writes(chunks);
    var calls := a + [Call.End];
    RunAppend(Fresh(), a, [Call.End]);
    var s1 := Step(Fresh(), hdr);
    assert a[0] == hdr && a[1..] == Writes(chunks);
    assert Run(Fresh(), a) == Run(s1, Writes(chunks));
    var w := Writes(chunks);
    var s2 := Step(s1, w[0]);
    assert Run(s1, w) == Run(s2, w[1..]);
    StepFirstStatus(s1, w[0]);
    StepConsistent(s1, w[0]);
    StepSingleStatus(s1, w[0]);
    FirstStatusCode(s2.wire);
    RunKeepsCommitted(s2, w[1..]);
    RunFirstStatus(s2, w[1..]);
    var q := Run(s2, w[1..]);
    assert Run(q, [Call.End]) == q by {
      assert [Call.End][1..] == [];
    }
    RunBody(Fresh(), calls);
    PayloadAppend(a, [Call.End]);
    PayloadAppend([hdr], w);
    PayloadWrites(chunks);
    assert Payload([hdr]) == [] && Payload([Call.End]) == [] by {
      assert [hdr][1..] == [] && [Call.End][1..] == [];
    }
  }
}
