/**
 * The response writer handed to a route handler (internal/customFramework/response.go).
 *
 * A `Response` wraps the underlying HTTP response writer and remembers in
 * `headerWritten` whether it has already sent the status line. The underlying
 * writer is modelled by the trace of the calls made on it, in order (the
 * `wire`): a `StatusLine` for each WriteHeader call, carrying the header map
 * as it stood at that moment, and a `BodyBytes` for each Write call.
 * The functional specification `Step` says what each method does to that
 * state; the class below implements it with the same branches as the source.
 */
module Responses {
  import opened Common

  const StatusOK := 200
  const ContentType := "Content-Type"
  const ApplicationJson := "application/json"

  /** One call on the underlying response writer. */
  datatype Event =
    | StatusLine(code: int, header: map<string, string>)
    | BodyBytes(data: seq<byte>)

  /** Everything a Response holds: its flag, the pending header map and what reached the writer. */
  datatype ResponseState = ResponseState(headerWritten: bool, header: map<string, string>, wire: seq<Event>)

  /**
   * The calls a handler can make. `Json` carries what the JSON encoder
   * produces for the value: the encoding (with its trailing newline), or
   * `None` when the value cannot be encoded and nothing is written.
   */
  datatype Call =
    | Status(code: int)
    | SetHeader(key: string, value: string)
    | End
    | Json(encoded: Option<seq<byte>>)
    | Write(data: seq<byte>)

  /** A response as the server creates it for a matched route. */
  function Fresh(): (s: ResponseState)
    ensures !s.headerWritten && s.wire == [] && s.header == map[]
  {
    ResponseState(false, map[], [])
  }

  /** The status codes sent on the wire, in order. */
  function StatusCodes(wire: seq<Event>): seq<int>
  {
    if wire == [] then []
    else (if wire[0].StatusLine? then [wire[0].code] else []) + StatusCodes(wire[1..])
  }

  /** The first status line written to the underlying writer. */
  function FirstStatusLine(wire: seq<Event>): (e: Option<Event>)
    ensures e.Some? ==> e.value.StatusLine? && e.value in wire
    ensures e.None? ==> forall i :: 0 <= i < |wire| ==> !wire[i].StatusLine?
  {
    if wire == [] then None
    else if wire[0].StatusLine? then Some(wire[0])
    else FirstStatusLine(wire[1..])
  }

  /** The body bytes sent on the wire, concatenated in order. */
  function Body(wire: seq<Event>): seq<byte>
  {
    if wire == [] then []
    else (if wire[0].BodyBytes? then wire[0].data else []) + Body(wire[1..])
  }

  /** The guarded WriteHeader of Status, Json and Write: a status line only while none was committed. */
  function Commit(s: ResponseState, code: int): (t: ResponseState)
    ensures t.headerWritten && t.header == s.header
    ensures s.headerWritten ==> t == s
    ensures !s.headerWritten ==> t.wire == s.wire + [StatusLine(code, s.header)]
  {
    if s.headerWritten then s
    else ResponseState(true, s.header, s.wire + [StatusLine(code, s.header)])
  }

  /** What one method of Response does to the state. */
  function Step(s: ResponseState, c: Call): (t: ResponseState)
    // the writer's trace only grows
    ensures |s.wire| <= |t.wire| && t.wire[..|s.wire|] == s.wire
    // once committed, a response stays committed and sends no further status line
    ensures s.headerWritten ==> t.headerWritten && StatusCodes(t.wire) == StatusCodes(s.wire)
    // End sends a status line but leaves the flag as it was
    ensures c.End? ==> t.headerWritten == s.headerWritten
    // every call except End and Header commits the response
    ensures c.Status? || c.Json? || c.Write? ==> t.headerWritten
  {
    var t := match c
      case Status(code) => Commit(s, code)
      case SetHeader(key, value) => s.(header := s.header[key := value])
      case End => if s.headerWritten then s else s.(wire := s.wire + [StatusLine(StatusOK, s.header)])
      case Json(encoded) =>
        var u := Commit(s.(header := s.header[ContentType := ApplicationJson]), StatusOK);
        if encoded.Some? then u.(wire := u.wire + [BodyBytes(encoded.value)]) else u
      case Write(data) =>
        var u := Commit(s, StatusOK);
        u.(wire := u.wire + [BodyBytes(data)]);
    assert t.wire[..|s.wire|] == s.wire;
    if s.headerWritten then (StatusCodesAppendBody(s, t); t) else t
  }

  /** A sequence of calls made by one handler, in order. */
  function Run(s: ResponseState, calls: seq<Call>): ResponseState
    decreases |calls|
  {
    if calls == [] then s else Run(Step(s, calls[0]), calls[1..])
  }

  /** The status the handler's calls commit first: explicit by Status, 200 by End, Json or Write. */
  function FirstCommit(calls: seq<Call>): Option<int>
  {
    if calls == [] then None
    else match calls[0]
      case Status(code) => Some(code)
      case SetHeader(_, _) => FirstCommit(calls[1..])
      case _ => Some(StatusOK)
  }

  /** The bytes the handler's Write and Json calls hand to the writer, in order. */
  function Payload(calls: seq<Call>): seq<byte>
  {
    if calls == [] then []
    else match calls[0]
      case Write(data) => data + Payload(calls[1..])
      case Json(encoded) => (if encoded.Some? then encoded.value else []) + Payload(calls[1..])
      case _ => Payload(calls[1..])
  }

  /**
   * The state every reachable response is in: a committed response has sent
   * a status line, and nothing is written before the first status line.
   */
  ghost predicate Consistent(s: ResponseState)
  {
    (s.headerWritten ==> FirstStatusLine(s.wire).Some?)
    && (s.wire != [] ==> s.wire[0].StatusLine?)
  }

  /** Without End, the flag tells exactly how many status lines were sent: one or none. */
  ghost predicate SingleStatus(s: ResponseState)
  {
    |StatusCodes(s.wire)| == (if s.headerWritten then 1 else 0)
  }

  lemma {:induction false} StatusCodesAppend(a: seq<Event>, b: seq<Event>)
    ensures StatusCodes(a + b) == StatusCodes(a) + StatusCodes(b)
    decreases |a|
  {
    if a != [] {
      assert (a + b)[1..] == a[1..] + b;
      StatusCodesAppend(a[1..], b);
    } else {
      assert a + b == b;
    }
  }

  lemma {:induction false} BodyAppend(a: seq<Event>, b: seq<Event>)
    ensures Body(a + b) == Body(a) + Body(b)
    decreases |a|
  {
    if a != [] {
      assert (a + b)[1..] == a[1..] + b;
      BodyAppend(a[1..], b);
    } else {
      assert a + b == b;
    }
  }

  lemma {:induction false} FirstStatusLineAppend(a: seq<Event>, b: seq<Event>)
    ensures FirstStatusLine(a + b) == if FirstStatusLine(a).Some? then FirstStatusLine(a) else FirstStatusLine(b)
    decreases |a|
  {
    if a != [] {
      assert (a + b)[1..] == a[1..] + b;
      FirstStatusLineAppend(a[1..], b);
    } else {
      assert a + b == b;
    }
  }

  lemma SingleEvent(e: Event)
    ensures StatusCodes([e]) == (if e.StatusLine? then [e.code] else [])
    ensures Body([e]) == (if e.BodyBytes? then e.data else [])
    ensures FirstStatusLine([e]) == (if e.StatusLine? then Some(e) else None)
  {
    assert [e][1..] == [];
  }

  /** A committed state keeps its status codes through any call: what Step appends is body only. */
  lemma StatusCodesAppendBody(s: ResponseState, t: ResponseState)
    requires |s.wire| <= |t.wire| && t.wire[..|s.wire|] == s.wire
    requires forall i :: |s.wire| <= i < |t.wire| ==> t.wire[i].BodyBytes?
    ensures StatusCodes(t.wire) == StatusCodes(s.wire)
  {
    var extra := t.wire[|s.wire|..];
    assert t.wire == s.wire + extra;
    StatusCodesAppend(s.wire, extra);
    NoStatusCodes(extra);
  }

  lemma {:induction false} NoStatusCodes(w: seq<Event>)
    requires forall i :: 0 <= i < |w| ==> w[i].BodyBytes?
    ensures StatusCodes(w) == []
    decreases |w|
  {
    if w != [] {
      NoStatusCodes(w[1..]);
    }
  }

  /** Every call keeps a response consistent, End included. */
  lemma StepConsistent(s: ResponseState, c: Call)
    requires Consistent(s)
    ensures Consistent(Step(s, c))
  {
    var t := Step(s, c);
    FirstStatusLineAppend(s.wire, t.wire[|s.wire|..]);
    assert t.wire == s.wire + t.wire[|s.wire|..];
    if !s.headerWritten && t.headerWritten {
      assert t.wire[|s.wire|].StatusLine?;
      FirstStatusLineAppend(s.wire, t.wire[|s.wire|..]);
    }
  }

  /** Every call but End keeps exactly one status line per committed response and none otherwise. */
  lemma StepSingleStatus(s: ResponseState, c: Call)
    requires SingleStatus(s) && !c.End?
    ensures SingleStatus(Step(s, c))
  {
    var t := Step(s, c);
    if !s.headerWritten {
      match c
      case Status(code) =>
        StatusCodesAppend(s.wire, [StatusLine(code, s.header)]);
        SingleEvent(StatusLine(code, s.header));
      case SetHeader(_, _) =>
      case Json(encoded) =>
        var h := s.header[ContentType := ApplicationJson];
        var line := [StatusLine(StatusOK, h)];
        StatusCodesAppend(s.wire, line);
        SingleEvent(StatusLine(StatusOK, h));
        if encoded.Some? {
          StatusCodesAppend(s.wire + line, [BodyBytes(encoded.value)]);
          SingleEvent(BodyBytes(encoded.value));
        }
      case Write(data) =>
        var line := [StatusLine(StatusOK, s.header)];
        StatusCodesAppend(s.wire, line);
        SingleEvent(StatusLine(StatusOK, s.header));
        StatusCodesAppend(s.wire + line, [BodyBytes(data)]);
        SingleEvent(BodyBytes(data));
    }
  }

  /** The first status line reaching the writer after one call. */
  lemma StepFirstStatus(s: ResponseState, c: Call)
    requires Consistent(s)
    ensures FirstStatusLine(s.wire).Some? ==> FirstStatusLine(Step(s, c).wire) == FirstStatusLine(s.wire)
    ensures FirstStatusLine(s.wire).None? && c.Status? ==> FirstStatusLine(Step(s, c).wire) == Some(StatusLine(c.code, s.header))
    ensures FirstStatusLine(s.wire).None? && c.SetHeader? ==> FirstStatusLine(Step(s, c).wire) == None
    ensures FirstStatusLine(s.wire).None? && (c.End? || c.Write?) ==> FirstStatusLine(Step(s, c).wire) == Some(StatusLine(StatusOK, s.header))
    ensures FirstStatusLine(s.wire).None? && c.Json? ==>
      FirstStatusLine(Step(s, c).wire) == Some(StatusLine(StatusOK, s.header[ContentType := ApplicationJson]))
  {
    var t := Step(s, c);
    var extra := t.wire[|s.wire|..];
    assert t.wire == s.wire + extra;
    FirstStatusLineAppend(s.wire, extra);
    if FirstStatusLine(s.wire).None? && !c.SetHeader? {
      var h := if c.Json? then s.header[ContentType := ApplicationJson] else s.header;
      var code := if c.Status? then c.code else StatusOK;
      assert extra[0] == StatusLine(code, h);
      assert extra == [extra[0]] + extra[1..];
      FirstStatusLineAppend([extra[0]], extra[1..]);
      SingleEvent(extra[0]);
    }
  }

  /** What one call adds to the body. */
  lemma StepBody(s: ResponseState, c: Call)
    ensures Body(Step(s, c).wire) == Body(s.wire) + Payload([c])
  {
    assert [c][1..] == [];
    var t := Step(s, c);
    var extra := t.wire[|s.wire|..];
    assert t.wire == s.wire + extra;
    BodyAppend(s.wire, extra);
    match c
    case Status(_) => BodyNoData(extra);
    case SetHeader(_, _) => BodyNoData(extra);
    case End => BodyNoData(extra);
    case Json(encoded) =>
      if encoded.Some? {
        BodyLast(extra, encoded.value);
      } else {
        BodyNoData(extra);
      }
    case Write(data) => BodyLast(extra, data);
  }

  lemma {:induction false} BodyNoData(w: seq<Event>)
    requires forall i :: 0 <= i < |w| ==> w[i].StatusLine?
    ensures Body(w) == []
    decreases |w|
  {
    if w != [] {
      BodyNoData(w[1..]);
    }
  }

  lemma BodyLast(w: seq<Event>, data: seq<byte>)
    requires w != [] && w[|w| - 1] == BodyBytes(data)
    requires forall i :: 0 <= i < |w| - 1 ==> w[i].StatusLine?
    ensures Body(w) == data
  {
    var init := w[..|w| - 1];
    assert w == init + [BodyBytes(data)];
    BodyAppend(init, [BodyBytes(data)]);
    BodyNoData(init);
    SingleEvent(BodyBytes(data));
  }

  /** A handler's calls, taken together, keep the response consistent. */
  lemma {:induction false} RunConsistent(s: ResponseState, calls: seq<Call>)
    requires Consistent(s)
    ensures Consistent(Run(s, calls))
    decreases |calls|
  {
    if calls != [] {
      StepConsistent(s, calls[0]);
      RunConsistent(Step(s, calls[0]), calls[1..]);
    }
  }

  /**
   * A handler that never calls End sends at most one status line, and sends
   * one exactly when the response ends up committed.
   */
  lemma {:induction false} RunSingleStatus(s: ResponseState, calls: seq<Call>)
    requires SingleStatus(s)
    requires forall i :: 0 <= i < |calls| ==> !calls[i].End?
    ensures SingleStatus(Run(s, calls))
    decreases |calls|
  {
    if calls != [] {
      StepSingleStatus(s, calls[0]);
      RunSingleStatus(Step(s, calls[0]), calls[1..]);
    }
  }

  /** From a fresh response, without End: at most one status line, and one as soon as anything commits. */
  lemma AtMostOneStatusLine(calls: seq<Call>)
    requires forall i :: 0 <= i < |calls| ==> !calls[i].End?
    ensures |StatusCodes(Run(Fresh(), calls).wire)| <= 1
    ensures Run(Fresh(), calls).headerWritten <==> |StatusCodes(Run(Fresh(), calls).wire)| == 1
  {
    RunSingleStatus(Fresh(), calls);
  }

  /**
   * The first status line written carries the code the first committing call
   * chooses: an explicit Status code, or 200 from End, Json or Write; Header
   * calls before it do not commit. Once a status line is out, it is final,
   * header snapshot included.
   */
  lemma {:induction false} RunFirstStatus(s: ResponseState, calls: seq<Call>)
    requires Consistent(s)
    ensures FirstStatusLine(s.wire).Some? ==> FirstStatusLine(Run(s, calls).wire) == FirstStatusLine(s.wire)
    ensures FirstStatusLine(s.wire).None? && FirstCommit(calls).None? ==> FirstStatusLine(Run(s, calls).wire).None?
    ensures FirstStatusLine(s.wire).None? && FirstCommit(calls).Some? ==>
      FirstStatusLine(Run(s, calls).wire).Some? && FirstStatusLine(Run(s, calls).wire).value.code == FirstCommit(calls).value
    decreases |calls|
  {
    if calls != [] {
      var t := Step(s, calls[0]);
      StepFirstStatus(s, calls[0]);
      StepConsistent(s, calls[0]);
      RunFirstStatus(t, calls[1..]);
    }
  }

  /** The body written is everything Write and Json handed over, in order. */
  lemma {:induction false} RunBody(s: ResponseState, calls: seq<Call>)
    ensures Body(Run(s, calls).wire) == Body(s.wire) + Payload(calls)
    decreases |calls|
  {
    if calls != [] {
      StepBody(s, calls[0]);
      RunBody(Step(s, calls[0]), calls[1..]);
      PayloadCons(calls);
    }
  }

  lemma PayloadCons(calls: seq<Call>)
    requires calls != []
    ensures Payload(calls) == Payload([calls[0]]) + Payload(calls[1..])
  {
    assert [calls[0]][1..] == [];
  }

  /** Json on an uncommitted response announces its body: the status line carries Content-Type: application/json. */
  lemma JsonAnnouncesContentType(s: ResponseState, encoded: Option<seq<byte>>)
    requires Consistent(s) && FirstStatusLine(s.wire).None?
    ensures var line := FirstStatusLine(Step(s, Json(encoded)).wire);
      line.Some? && line.value.code == StatusOK
      && ContentType in line.value.header && line.value.header[ContentType] == ApplicationJson
  {
    StepFirstStatus(s, Json(encoded));
  }

  /** End leaves the response open, so a later Status or Write makes a second WriteHeader call. */
  lemma EndThenStatusWritesTwice(s: ResponseState, code: int)
    requires !s.headerWritten
    ensures StatusCodes(Run(s, [End, Status(code)]).wire) == StatusCodes(s.wire) + [StatusOK, code]
  {
    var h := s.header;
    var u := Step(s, End);
    assert u.wire == s.wire + [StatusLine(StatusOK, h)] && !u.headerWritten;
    var t := Step(u, Status(code));
    assert t.wire == s.wire + [StatusLine(StatusOK, h), StatusLine(code, h)];
    assert Run(s, [End, Status(code)]) == Run(t, []) by {
      assert [End, Status(code)][1..] == [Status(code)];
      assert [Status(code)][1..] == [];
    }
    StatusCodesAppend(s.wire, [StatusLine(StatusOK, h), StatusLine(code, h)]);
    assert StatusCodes([StatusLine(StatusOK, h), StatusLine(code, h)]) == [StatusOK, code] by {
      assert [StatusLine(StatusOK, h), StatusLine(code, h)][1..] == [StatusLine(code, h)];
      SingleEvent(StatusLine(code, h));
    }
  }

  /** Calls run one after the other: a handler's calls split anywhere. */
  lemma {:induction false} RunAppend(s: ResponseState, a: seq<Call>, b: seq<Call>)
    ensures Run(s, a + b) == Run(Run(s, a), b)
    decreases |a|
  {
    if a == [] {
      assert a + b == b;
    } else {
      assert (a + b)[0] == a[0] && (a + b)[1..] == a[1..] + b;
      RunAppend(Step(s, a[0]), a[1..], b);
    }
  }

  lemma {:induction false} PayloadAppend(a: seq<Call>, b: seq<Call>)
    ensures Payload(a + b) == Payload(a) + Payload(b)
    decreases |a|
  {
    if a == [] {
      assert a + b == b;
    } else {
      assert (a + b)[0] == a[0] && (a + b)[1..] == a[1..] + b;
      PayloadAppend(a[1..], b);
    }
  }

  /** Once committed, a response stays committed and no call changes the status codes sent. */
  lemma {:induction false} RunKeepsCommitted(s: ResponseState, calls: seq<Call>)
    requires s.headerWritten
    ensures Run(s, calls).headerWritten && StatusCodes(Run(s, calls).wire) == StatusCodes(s.wire)
    decreases |calls|
  {
    if calls != [] {
      RunKeepsCommitted(Step(s, calls[0]), calls[1..]);
    }
  }

  /** The first status code on the wire heads the list of codes. */
  lemma {:induction false} FirstStatusCode(w: seq<Event>)
    requires FirstStatusLine(w).Some?
    ensures StatusCodes(w) != [] && StatusCodes(w)[0] == FirstStatusLine(w).value.code
    decreases |w|
  {
    if !w[0].StatusLine? {
      FirstStatusCode(w[1..]);
    }
  }

  /**
   * Status before Json, as in `res.Status(code).Json(v)`: the status line goes
   * out with the headers set before Status, so the Content-Type that Json
   * sets afterwards never reaches the wire.
   */
  lemma StatusThenJson(s: ResponseState, code: int, encoded: Option<seq<byte>>)
    requires Consistent(s) && FirstStatusLine(s.wire).None?
    ensures FirstStatusLine(Run(s, [Status(code), Json(encoded)]).wire) == Some(StatusLine(code, s.header))
  {
    var t := Step(s, Status(code));
    StepFirstStatus(s, Status(code));
    StepConsistent(s, Status(code));
    StepFirstStatus(t, Json(encoded));
    assert [Status(code), Json(encoded)][1..] == [Json(encoded)];
    assert [Json(encoded)][1..] == [];
    assert Run(s, [Status(code), Json(encoded)]) == Run(t, [Json(encoded)]);
    assert Run(t, [Json(encoded)]) == Step(t, Json(encoded));
  }

  /** Response: the writer handed to a handler, with the flag that guards WriteHeader. */
  class Response {
    var headerWritten: bool
    var header: map<string, string>
    var wire: seq<Event>

    function State(): ResponseState
      reads this
    {
      ResponseState(headerWritten, header, wire)
    }

    /** The server wraps the writer of the request in a fresh Response. */
    constructor ()
      ensures State() == Fresh()
    {
      headerWritten := false;
      header := map[];
      wire := [];
    }

    /** The embedded writer's WriteHeader: sends the status line with the headers set so far. */
    method WriteHeader(code: int)
      modifies this
      ensures headerWritten == old(headerWritten) && header == old(header)
      ensures wire == old(wire) + [StatusLine(code, old(header))]
    {
      wire := wire + [StatusLine(code, header)];
    }

    /** The embedded writer's Write: sends body bytes. */
    method WriteBytes(data: seq<byte>)
      modifies this
      ensures headerWritten == old(headerWritten) && header == old(header)
      ensures wire == old(wire) + [BodyBytes(data)]
    {
      wire := wire + [BodyBytes(data)];
    }

    /** Status: sends the status line with `code`, unless one was already committed. */
    method Status(code: int) returns (r: Response)
      modifies this
      ensures r == this
      ensures State() == Step(old(State()), Call.Status(code))
    {
      if !headerWritten {
        WriteHeader(code);
        headerWritten := true;
      }
      r := this;
    }

    /** Header: sets a header of the pending header map. */
    method Header(key: string, value: string) returns (r: Response)
      modifies this
      ensures r == this
      ensures State() == Step(old(State()), SetHeader(key, value))
    {
      header := header[key := value];
      r := this;
    }

    /** End: sends status 200 unless a status was committed; the flag is left unchanged. */
    method End()
      modifies this
      ensures State() == Step(old(State()), Call.End)
    {
      if !headerWritten {
        WriteHeader(StatusOK);
      }
    }

    /** Json: sets Content-Type to application/json, commits 200 if needed, then writes the encoding. */
    method Json(encoded: Option<seq<byte>>)
      modifies this
      ensures State() == Step(old(State()), Call.Json(encoded))
    {
      var self := Header(ContentType, ApplicationJson);
      if !headerWritten {
        WriteHeader(StatusOK);
        headerWritten := true;
      }
      if encoded.Some? {
        WriteBytes(encoded.value);
      }
    }

    /** Write: commits 200 if needed, then writes `data`. */
    method Write(data: seq<byte>) returns (r: Response)
      modifies this
      ensures r == this
      ensures State() == Step(old(State()), Call.Write(data))
    {
      if !headerWritten {
        WriteHeader(StatusOK);
        headerWritten := true;
      }
      WriteBytes(data);
      r := this;
    }
  }
}
