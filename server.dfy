/**
 * The broker's request path (src/server.rs): splitting a request into header and
 * body lines, routing on method and path against the name-to-queue map, and the
 * text of the response. The TCP stream is replaced by a string in and a string out.
 */
module MessageServer {
  import opened Strings
  import opened MessageQueue

  datatype Option<T> = None | Some(value: T)

  /** The three statuses the server answers with. */
  datatype Status = Ok | BadRequest | NotFound

  /** A status and the body written after the status line. */
  datatype Response = Response(status: Status, body: string)

  /** The two places where `handle_connection` indexes out of bounds on a
      malformed request: `header[0]` when the request has no header line, and
      `first_line_parsed[1]` when the first line holds no space. */
  datatype Panic = MissingRequestLine | MissingPath

  /** What one connection gets back: the bytes written to it, or nothing because
      the handler panicked (which also ends the serial accept loop). */
  datatype Outcome = Written(text: string) | Panicked(cause: Panic)

  /** The server's queues as values: each name maps to its deque (front first). */
  type Registry = map<string, seq<string>>

  const NewRoute := "/new/"
  const DeleteRoute := "/delete/"
  const GetRoute := "/get/"
  const AddRoute := "/add/"

  /** The line that ends the header: lines are split on "\n" only, so a blank
      line still carries its "\r". */
  const Separator := "\r"

  // ---------------------------------------------------------------------------
  // Responses (send_ok, send_bad_request, send_not_found, send_body)

  /** The fixed status line, with the blank line after it. */
  function StatusLine(s: Status): string {
    match s
    case Ok => "HTTP/1.1 200 OK\r\n\r\n"
    case BadRequest => "HTTP/1.1 400 Bad Request\r\n\r\n"
    case NotFound => "HTTP/1.1 404 Not Found\r\n\r\n"
  }

  /** Everything written on the connection for a response: its status line,
      then its body (nothing more, no other headers). */
  function Serialize(r: Response): (text: string)
    ensures StartsWith(text, StatusLine(r.status)) && text[|StatusLine(r.status)|..] == r.body
  {
    StatusLine(r.status) + r.body
  }

  /** Reads a response text back into its status and body. */
  function Deserialize(text: string): Option<Response> {
    if StartsWith(text, StatusLine(Ok)) then Some(Response(Ok, text[|StatusLine(Ok)|..]))
    else if StartsWith(text, StatusLine(BadRequest)) then Some(Response(BadRequest, text[|StatusLine(BadRequest)|..]))
    else if StartsWith(text, StatusLine(NotFound)) then Some(Response(NotFound, text[|StatusLine(NotFound)|..]))
    else None
  }

  /** Each status line is an HTTP/1.1 status line ended by "\r\n", followed by
      the empty line that ends a header with no fields. */
  lemma StatusLineFormat(s: Status)
    ensures StartsWith(StatusLine(s), "HTTP/1.1 ")
    ensures var line := StatusLine(s); |line| >= 4 && line[|line| - 4..] == "\r\n\r\n"
  {
  }

  /** A response text determines its status and its body. */
  lemma SerializeRoundTrip(r: Response)
    ensures Deserialize(Serialize(r)) == Some(r)
  {
    var text := Serialize(r);
    match r.status
    case Ok =>
      assert text[..|StatusLine(Ok)|] == StatusLine(Ok);
      assert text[|StatusLine(Ok)|..] == r.body;
    case BadRequest =>
      assert text[9] != StatusLine(Ok)[9];
      assert text[..|StatusLine(BadRequest)|] == StatusLine(BadRequest);
      assert text[|StatusLine(BadRequest)|..] == r.body;
    case NotFound =>
      assert text[9] != StatusLine(Ok)[9];
      assert text[11] != StatusLine(BadRequest)[11];
      assert text[..|StatusLine(NotFound)|] == StatusLine(NotFound);
      assert text[|StatusLine(NotFound)|..] == r.body;
  }

  /** Two different responses never put the same text on the wire. */
  lemma SerializeInjective(r1: Response, r2: Response)
    ensures Serialize(r1) == Serialize(r2) ==> r1 == r2
  {
    SerializeRoundTrip(r1);
    SerializeRoundTrip(r2);
  }

  // ---------------------------------------------------------------------------
  // Routing (the body of handle_connection after the request line is split)

  /** The 400 body for a create on a name that is taken. */
  function AlreadyExists(name: string): string {
    "Queue '" + name + "' already exists"
  }

  /** The 400 body for a delete on a name that is absent. */
  function CannotRemove(name: string): string {
    "Queue '" + name + "' cannot be removed as it does not exist"
  }

  /** The queue name of a routed path: `path.replace(route, "")`. */
  function QueueName(path: string, route: string): (name: string)
    requires |route| > 0
    ensures StartsWith(path, route) ==> |name| <= |path| - |route|
  {
    assert StartsWith(path, route) ==> Occurs(path, route);
    RemoveAll(path, route)
  }

  /** The response to one request and the registry after it, route by route,
      in the order handle_connection tests the routes. A refused request changes
      nothing; only a create or a delete changes which queues exist; only a
      retrieval answers 200 with a non-empty body. */
  function Dispatch(reg: Registry, verb: string, path: string, body: seq<string>): (r: (Response, Registry))
    ensures r.0.status != Ok ==> r.1 == reg
    ensures r.1.Keys != reg.Keys ==>
      (verb == "POST" && StartsWith(path, NewRoute)) || (verb == "DELETE" && StartsWith(path, DeleteRoute))
    ensures r.0.status == Ok && r.0.body != "" ==> verb == "GET" && StartsWith(path, GetRoute)
  {
    if verb == "POST" && StartsWith(path, NewRoute) then
      var name := QueueName(path, NewRoute);
      if name in reg then (Response(BadRequest, AlreadyExists(name)), reg)
      else (Response(Ok, ""), reg[name := []])
    else if verb == "DELETE" && StartsWith(path, DeleteRoute) then
      var name := QueueName(path, DeleteRoute);
      if name in reg then (Response(Ok, ""), reg - {name})
      else (Response(BadRequest, CannotRemove(name)), reg)
    else if verb == "GET" && StartsWith(path, GetRoute) then
      var name := QueueName(path, GetRoute);
      if name !in reg then (Response(NotFound, ""), reg)
      else
        var (message, rest) := Retrieved(reg[name]);
        (Response(Ok, message), reg[name := rest])
    else if verb == "POST" && StartsWith(path, AddRoute) then
      var name := QueueName(path, AddRoute);
      if name !in reg then (Response(NotFound, ""), reg)
      else (Response(Ok, ""), reg[name := Added(reg[name], Join(body, "\n"))])
    else (Response(NotFound, ""), reg)
  }

  /** POST /new/<name>: a taken name is refused with 400 and the registry is
      unchanged; otherwise an empty queue is added under the name, the answer is
      200, and every other entry is unchanged. */
  lemma CreateQueue(reg: Registry, path: string, body: seq<string>)
    requires StartsWith(path, NewRoute)
    ensures var name := QueueName(path, NewRoute);
      var (resp, reg') := Dispatch(reg, "POST", path, body);
      && (name in reg ==> resp == Response(BadRequest, "Queue '" + name + "' already exists") && reg' == reg)
      && (name !in reg ==>
            && resp == Response(Ok, "")
            && reg'.Keys == reg.Keys + {name}
            && Arrival(reg'[name]) == []
            && forall n :: n in reg ==> reg'[n] == reg[n])
  {
  }

  /** DELETE /delete/<name>: a present name is removed, alone, with 200; an
      absent one is refused with 400 and the registry is unchanged. */
  lemma DeleteQueue(reg: Registry, path: string, body: seq<string>)
    requires StartsWith(path, DeleteRoute)
    ensures var name := QueueName(path, DeleteRoute);
      var (resp, reg') := Dispatch(reg, "DELETE", path, body);
      && (name in reg ==>
            && resp == Response(Ok, "")
            && reg'.Keys == reg.Keys - {name}
            && forall n :: n in reg' ==> reg'[n] == reg[n])
      && (name !in reg ==>
            resp == Response(BadRequest, "Queue '" + name + "' cannot be removed as it does not exist") && reg' == reg)
  {
    assert !StartsWith(path, NewRoute) by {
      assert path[1] == 'd';
    }
  }

  /** GET /get/<name>: a missing queue gives 404 with an empty body and no
      change; otherwise 200 with the oldest message (the empty string for an
      empty queue) as the body, and only that queue loses that message. */
  lemma RetrieveFromQueue(reg: Registry, path: string, body: seq<string>)
    requires StartsWith(path, GetRoute)
    ensures var name := QueueName(path, GetRoute);
      var (resp, reg') := Dispatch(reg, "GET", path, body);
      && (name !in reg ==> resp == Response(NotFound, "") && reg' == reg)
      && (name in reg ==>
            && resp.status == Ok
            && reg'.Keys == reg.Keys
            && (forall n :: n in reg && n != name ==> reg'[n] == reg[n])
            && (Arrival(reg[name]) == [] ==> resp.body == "" && reg'[name] == [])
            && (Arrival(reg[name]) != [] ==>
                  resp.body == Arrival(reg[name])[0] && Arrival(reg'[name]) == Arrival(reg[name])[1..]))
  {
  }

  /** POST /add/<name>: a missing queue gives 404 with no change; otherwise the
      body lines, joined with "\n", join that queue as one message, the answer
      is 200 with an empty body, and no other queue changes. */
  lemma AddToQueue(reg: Registry, path: string, body: seq<string>)
    requires StartsWith(path, AddRoute)
    ensures var name := QueueName(path, AddRoute);
      var (resp, reg') := Dispatch(reg, "POST", path, body);
      && (name !in reg ==> resp == Response(NotFound, "") && reg' == reg)
      && (name in reg ==>
            && resp == Response(Ok, "")
            && reg'.Keys == reg.Keys
            && (forall n :: n in reg && n != name ==> reg'[n] == reg[n])
            && Arrival(reg'[name]) == Arrival(reg[name]) + [Join(body, "\n")])
  {
    assert !StartsWith(path, NewRoute) by {
      assert path[1] == 'a';
    }
  }

  /** Any other method and path, a method in the wrong case included, gives 404
      with an empty body and leaves the registry unchanged. */
  lemma UnroutedRequest(reg: Registry, verb: string, path: string, body: seq<string>)
    requires !(verb == "POST" && (StartsWith(path, NewRoute) || StartsWith(path, AddRoute)))
    requires !(verb == "DELETE" && StartsWith(path, DeleteRoute))
    requires !(verb == "GET" && StartsWith(path, GetRoute))
    ensures Dispatch(reg, verb, path, body) == (Response(NotFound, ""), reg)
  {
  }

  /** The queue name is what follows the route prefix, provided the prefix does
      not occur again further on. */
  lemma QueueNameIsRemainder(path: string, route: string)
    requires |route| > 0
    requires StartsWith(path, route) && !Occurs(path[|route|..], route)
    ensures QueueName(path, route) == path[|route|..]
  {
    StripLeading(path, route);
  }

  /** Otherwise every later occurrence of the prefix is deleted too: when the
      prefix occurs again after a part `a` (in which it does not start), the
      name is `a` followed by `b` with the prefix deleted from it as well. */
  lemma QueueNameDropsLaterPrefixes(route: string, a: string, b: string)
    requires |route| > 0 && !Occurs(a + route[..|route| - 1], route)
    ensures QueueName(route + a + route + b, route) == a + RemoveAll(b, route)
  {
    var path := route + a + route + b;
    assert path[..|route|] == route && path[|route|..] == a + route + b;
    RemoveAllAfterFirst(a, route, b);
  }

  /** For instance the path "/new/a/new/b" creates the queue "ab", not "a/new/b". */
  lemma QueueNameDropsInnerPrefixes()
    ensures QueueName("/new/a/new/b", NewRoute) == "ab"
  {
    var p := NewRoute;
    assert !Occurs("a/new", p) by {
      assert !StartsWith("a/new", p) by {
        assert "a/new"[0] != p[0];
      }
      ShortAbsent("a/new"[1..], p);
    }
    assert "a/new" == "a" + p[..|p| - 1];
    QueueNameDropsLaterPrefixes(p, "a", "b");
    assert p + "a" + p + "b" == "/new/a/new/b";
    assert RemoveAll("b", p) == "b";
  }

  // ---------------------------------------------------------------------------
  // Parsing (parse_request)

  /** The position of the first `x` in `lines`. */
  function FirstIndex(lines: seq<string>, x: string): (i: nat)
    requires x in lines
    ensures i < |lines| && lines[i] == x && x !in lines[..i]
    decreases |lines|
  {
    if lines[0] == x then 0
    else
      assert x in lines[1..] by {
        assert lines == [lines[0]] + lines[1..];
      }
      var j := FirstIndex(lines[1..], x);
      assert lines[..j + 1] == [lines[0]] + lines[1..][..j];
      j + 1
  }

  /** Header and body lines of a request: the lines before the first "\r" line
      and the lines after it; with no "\r" line everything is header. */
  function Partition(lines: seq<string>): (r: (seq<string>, seq<string>))
    ensures Separator !in r.0
    ensures Separator in lines ==> r.0 + [Separator] + r.1 == lines
    ensures Separator !in lines ==> r.0 == lines && r.1 == []
  {
    if Separator in lines then
      var i := FirstIndex(lines, Separator);
      assert lines[..i] + [lines[i]] + lines[i + 1..] == lines;
      (lines[..i], lines[i + 1..])
    else (lines, [])
  }

  /** The header and body that put back together around one "\r" line give
      `lines` are exactly the ones Partition finds, provided the header holds
      no "\r" line: later "\r" lines belong to the body. */
  lemma {:induction false} PartitionUnique(lines: seq<string>, header: seq<string>, body: seq<string>)
    requires Separator !in header
    requires header + [Separator] + body == lines
    ensures Partition(lines) == (header, body)
  {
    assert lines[|header|] == Separator;
    var (h, b) := Partition(lines);
    assert |h| == |header|;
    assert h == lines[..|h|] == header;
    assert b == lines[|h| + 1..] == body;
  }

  /** `parse_request`'s loop: split the request text on "\n" and send each line
      to the header until the first "\r" line, which is dropped, and to the body
      after it. */
  method ParseRequest(data: string) returns (header: seq<string>, body: seq<string>)
    ensures (header, body) == Partition(Split(data, '\n'))
  {
    var lines := Split(data, '\n');
    header, body := [], [];
    var isHeader := true;
    ghost var cut := 0;
    for i := 0 to |lines|
      invariant isHeader ==> Separator !in lines[..i] && header == lines[..i] && body == []
      invariant !isHeader ==> cut < i && lines[cut] == Separator && Separator !in lines[..cut]
      invariant !isHeader ==> header == lines[..cut] && body == lines[cut + 1..i]
    {
      var line := lines[i];
      if line == Separator {
        if isHeader {
          isHeader := false;
          cut := i;
          continue;
        }
      }
      if isHeader {
        header := header + [line];
      } else {
        body := body + [line];
      }
      assert lines[..i + 1] == lines[..i] + [line];
    }
    if isHeader {
      assert lines[..|lines|] == lines;
    } else {
      assert lines == header + [Separator] + body;
      PartitionUnique(lines, header, body);
    }
  }

  // ---------------------------------------------------------------------------
  // One connection (handle_connection)

  /** One request/response cycle on the registry: parse, take method and path
      from the first header line, route, and write the response. */
  /** A panic changes no queue, every text written reads back as a response,
      and an answer other than 200 changes no queue either. */
  function Serve(reg: Registry, data: string): (r: (Outcome, Registry))
    ensures r.0.Panicked? ==> r.1 == reg
    ensures r.0.Written? ==> Deserialize(r.0.text).Some?
    ensures r.0.Written? && !StartsWith(r.0.text, StatusLine(Ok)) ==> r.1 == reg
  {
    var (header, body) := Partition(Split(data, '\n'));
    if |header| == 0 then (Panicked(MissingRequestLine), reg)
    else
      var tokens := Split(header[0], ' ');
      if |tokens| < 2 then (Panicked(MissingPath), reg)
      else
        var (resp, reg') := Dispatch(reg, tokens[0], tokens[1], body);
        SerializeRoundTrip(resp);
        (Written(Serialize(resp)), reg')
  }

  /** The handler panics on `header[0]` exactly when the request's first line
      is the blank "\r" line, and on `first_line_parsed[1]` exactly when the
      first line is not blank and holds no space; a panic changes no queue.
      Every other request is answered with one of the three response texts. */
  lemma {:induction false} ServePanics(reg: Registry, data: string)
    ensures var first := Split(data, '\n')[0];
      var (out, reg') := Serve(reg, data);
      && (out == Panicked(MissingRequestLine) <==> first == Separator)
      && (out == Panicked(MissingPath) <==> first != Separator && ' ' !in first)
      && (out.Panicked? ==> reg' == reg)
      && (out.Written? ==> Deserialize(out.text).Some?)
  {
    var lines := Split(data, '\n');
    var (header, body) := Partition(lines);
    if Separator in lines {
      assert header + [Separator] + body == lines;
    }
    if |header| > 0 {
      assert header[0] == lines[0];
      SplitIsSingle(header[0], ' ');
      var tokens := Split(header[0], ' ');
      if |tokens| >= 2 {
        SerializeRoundTrip(Dispatch(reg, tokens[0], tokens[1], body).0);
      }
    }
  }

  /** The request line a client writes: method, path and protocol, ended by "\r". */
  function RequestLine(verb: string, path: string): string {
    verb + " " + path + " HTTP/1.1\r"
  }

  /** Header-field lines as a client writes them, each ended by "\n"
      (a field such as "Host: localhost\r" keeps its own "\r"). */
  function FieldLines(fields: seq<string>): string
    decreases |fields|
  {
    if |fields| == 0 then "" else fields[0] + "\n" + FieldLines(fields[1..])
  }

  /** A request as a client writes it: the request line, the header fields,
      a blank line, the body. */
  function RequestText(verb: string, path: string, fields: seq<string>, message: string): string {
    RequestLine(verb, path) + "\n" + FieldLines(fields) + "\r\n" + message
  }

  /** Header fields free of "\n" split back into one line each, before the
      lines of whatever follows them. */
  lemma {:induction false} FieldLinesSplit(fields: seq<string>, rest: string)
    requires forall i :: 0 <= i < |fields| ==> '\n' !in fields[i]
    ensures Split(FieldLines(fields) + rest, '\n') == fields + Split(rest, '\n')
    decreases |fields|
  {
    if |fields| > 0 {
      var tail := FieldLines(fields[1..]) + rest;
      assert Split(FieldLines(fields) + rest, '\n') == [fields[0]] + Split(tail, '\n') by {
        assert FieldLines(fields) + rest == fields[0] + ['\n'] + tail;
        assert '\n' !in fields[0];
        SplitAfterPiece(fields[0], '\n', tail);
      }
      FieldLinesSplit(fields[1..], rest);
      assert fields == [fields[0]] + fields[1..];
    } else {
      assert FieldLines(fields) + rest == rest;
    }
  }

  /** Such a request splits into its request line, its header fields, the blank
      "\r" line, and the lines of its body. */
  lemma RequestTextLines(verb: string, path: string, fields: seq<string>, message: string)
    requires '\n' !in verb && '\n' !in path
    requires forall i :: 0 <= i < |fields| ==> '\n' !in fields[i]
    ensures Split(RequestText(verb, path, fields, message), '\n')
         == [RequestLine(verb, path)] + fields + [Separator] + Split(message, '\n')
  {
    var first := RequestLine(verb, path);
    var blank := "\r" + ['\n'] + message;
    var afterFirst := FieldLines(fields) + blank;
    assert RequestText(verb, path, fields, message) == first + ['\n'] + afterFirst;
    assert '\n' !in first;
    SplitAfterPiece(first, '\n', afterFirst);
    FieldLinesSplit(fields, blank);
    SplitAfterPiece("\r", '\n', message);
  }

  /** The request line splits on spaces into the method, the path, and the protocol. */
  lemma RequestLineTokens(verb: string, path: string)
    requires ' ' !in verb && ' ' !in path
    ensures var tokens := Split(RequestLine(verb, path), ' ');
      |tokens| >= 2 && tokens[0] == verb && tokens[1] == path
  {
    var rest := path + " HTTP/1.1\r";
    assert RequestLine(verb, path) == verb + [' '] + rest;
    SplitAfterPiece(verb, ' ', rest);
    assert rest == path + [' '] + "HTTP/1.1\r";
    SplitAfterPiece(path, ' ', "HTTP/1.1\r");
  }

  /** A request with any header fields (none of them the blank "\r" line)
      reaches the router with its own method and path, and with its body split
      into lines; the fields themselves play no part. */
  lemma RequestReachesDispatch(reg: Registry, verb: string, path: string, fields: seq<string>, message: string)
    requires ' ' !in verb && '\n' !in verb
    requires ' ' !in path && '\n' !in path
    requires forall i :: 0 <= i < |fields| ==> '\n' !in fields[i] && fields[i] != Separator
    ensures Serve(reg, RequestText(verb, path, fields, message))
         == (Written(Serialize(Dispatch(reg, verb, path, Split(message, '\n')).0)), Dispatch(reg, verb, path, Split(message, '\n')).1)
  {
    var first := RequestLine(verb, path);
    var header := [first] + fields;
    var body := Split(message, '\n');
    var lines := Split(RequestText(verb, path, fields, message), '\n');
    assert Partition(lines) == (header, body) by {
      RequestTextLines(verb, path, fields, message);
      assert first != Separator by {
        assert |first| > 1;
      }
      assert Separator !in header by {
        assert forall i :: 0 <= i < |header| ==> header[i] != Separator by {
          forall i | 0 <= i < |header| ensures header[i] != Separator {
            if i > 0 {
              assert header[i] == fields[i - 1];
            }
          }
        }
      }
      assert lines == header + [Separator] + body;
      PartitionUnique(lines, header, body);
    }
    assert header[0] == first;
    var tokens := Split(first, ' ');
    assert |tokens| >= 2 && tokens[0] == verb && tokens[1] == path by {
      RequestLineTokens(verb, path);
    }
  }

  /** Over the wire, POST /add/<name> on an existing queue answers 200 with an
      empty body and queues the request body, line breaks included, as one
      message, whatever header fields the request carries. */
  lemma AddOverTheWire(reg: Registry, name: string, fields: seq<string>, message: string)
    requires name in reg
    requires ' ' !in name && '\n' !in name && !Occurs(name, AddRoute)
    requires forall i :: 0 <= i < |fields| ==> '\n' !in fields[i] && fields[i] != Separator
    ensures Serve(reg, RequestText("POST", AddRoute + name, fields, message))
         == (Written(StatusLine(Ok)), reg[name := Added(reg[name], message)])
  {
    var path := AddRoute + name;
    var after := reg[name := Added(reg[name], message)];
    var routed := Dispatch(reg, "POST", path, Split(message, '\n'));
    assert routed == (Response(Ok, ""), after) by {
      assert path[|AddRoute|..] == name;
      QueueNameIsRemainder(path, AddRoute);
      assert !StartsWith(path, NewRoute) by {
        assert path[1] == 'a';
      }
      JoinSplit(message, '\n');
    }
    assert Serve(reg, RequestText("POST", path, fields, message)) == (Written(Serialize(routed.0)), routed.1) by {
      assert ' ' !in path && '\n' !in path;
      RequestReachesDispatch(reg, "POST", path, fields, message);
    }
    assert Serialize(Response(Ok, "")) == StatusLine(Ok);
  }

  /** Over the wire, GET /get/<name> on an existing queue answers 200 with what
      `retrieve_message` returns as the body, whatever header fields and body
      the request carries. */
  lemma GetOverTheWire(reg: Registry, name: string, fields: seq<string>, message: string)
    requires name in reg
    requires ' ' !in name && '\n' !in name && !Occurs(name, GetRoute)
    requires forall i :: 0 <= i < |fields| ==> '\n' !in fields[i] && fields[i] != Separator
    ensures Serve(reg, RequestText("GET", GetRoute + name, fields, message))
         == (Written(StatusLine(Ok) + Retrieved(reg[name]).0), reg[name := Retrieved(reg[name]).1])
  {
    var path := GetRoute + name;
    var routed := Dispatch(reg, "GET", path, Split(message, '\n'));
    assert routed == (Response(Ok, Retrieved(reg[name]).0), reg[name := Retrieved(reg[name]).1]) by {
      assert path[|GetRoute|..] == name;
      QueueNameIsRemainder(path, GetRoute);
    }
    assert Serve(reg, RequestText("GET", path, fields, message)) == (Written(Serialize(routed.0)), routed.1) by {
      assert ' ' !in path && '\n' !in path;
      RequestReachesDispatch(reg, "GET", path, fields, message);
    }
  }

  /** A message added with POST /add/<name> to an empty queue is what the next
      GET /get/<name> returns, and afterwards the registry is as it was. Over
      the wire (AddOverTheWire, GetOverTheWire) the body lines are those of the
      request body, so the message is that body exactly, line breaks included. */
  lemma AddThenGet(reg: Registry, name: string, body: seq<string>, getBody: seq<string>)
    requires name in reg && reg[name] == []
    requires !Occurs(name, AddRoute) && !Occurs(name, GetRoute)
    ensures var message := Join(body, "\n");
      && Dispatch(reg, "POST", AddRoute + name, body) == (Response(Ok, ""), reg[name := [message]])
      && Dispatch(reg[name := [message]], "GET", GetRoute + name, getBody) == (Response(Ok, message), reg)
  {
    var message := Join(body, "\n");
    var add := AddRoute + name;
    var get := GetRoute + name;
    assert add[|AddRoute|..] == name && get[|GetRoute|..] == name;
    QueueNameIsRemainder(add, AddRoute);
    QueueNameIsRemainder(get, GetRoute);
    assert !StartsWith(add, NewRoute) by {
      assert add[1] == 'a';
    }
    assert Added(reg[name], message) == [message];
    assert reg[name := [message]][name := []] == reg;
  }

  // ---------------------------------------------------------------------------
  // The server object

  /** `Server` from src/server.rs: the name-to-queue map, updated in place. */
  class Server {
    var queues: map<string, Queue>

    /** Distinct names own distinct queues. */
    ghost predicate Valid()
      reads this
    {
      forall a, b :: a in queues && b in queues && a != b ==> queues[a] != queues[b]
    }

    /** The registry the queues hold. */
    function Contents(): Registry
      reads this, queues.Values
    {
      map n | n in queues :: queues[n].deque
    }

    /** `new_server()`: a server with no queues. */
    constructor ()
      ensures Valid() && Contents() == map[]
    {
      queues := map[];
    }

    /** `self.queues.insert(name, new_queue())` for an absent name: a fresh,
        empty queue object joins the map, and no other queue changes. */
    method InsertQueue(name: string)
      requires Valid() && name !in queues
      modifies this
      ensures Valid()
      ensures Contents() == old(Contents())[name := []]
    {
      ghost var before := Contents();
      var q := new Queue();
      assert forall n :: n in queues ==> queues[n] != q && queues[n].deque == before[n];
      queues := queues[name := q];
      assert Contents() == before[name := []];
    }

    /** `self.queues.remove(&name)` for a present name: only that entry goes. */
    method RemoveQueue(name: string)
      requires Valid() && name in queues
      modifies this
      ensures Valid()
      ensures Contents() == old(Contents()) - {name}
    {
      queues := queues - {name};
      assert Contents() == old(Contents()) - {name};
    }

    /** `retrieve_message` on the queue under a present name: that queue's
        object changes as `Retrieved` says, and no other queue changes. */
    method RetrieveFrom(name: string) returns (message: string)
      requires Valid() && name in queues
      modifies queues[name]
      ensures Valid()
      ensures (message, Contents()) == (Retrieved(old(Contents())[name]).0, old(Contents())[name := Retrieved(old(Contents())[name]).1])
    {
      var q := queues[name];
      ghost var before := Contents();
      message := q.RetrieveMessage();
      assert forall n :: n in queues && n != name ==> queues[n].deque == before[n];
      assert Contents() == before[name := q.deque];
    }

    /** `add_message` on the queue under a present name: that queue's object
        changes as `Added` says, and no other queue changes. */
    method AddTo(name: string, message: string)
      requires Valid() && name in queues
      modifies queues[name]
      ensures Valid()
      ensures Contents() == old(Contents())[name := Added(old(Contents())[name], message)]
    {
      var q := queues[name];
      ghost var before := Contents();
      q.AddMessage(message);
      assert forall n :: n in queues && n != name ==> queues[n].deque == before[n];
      assert Contents() == before[name := q.deque];
    }

    /** Routes one parsed request and answers it, updating the queues in place. */
    method HandleRequest(verb: string, path: string, body: seq<string>) returns (resp: Response)
      requires Valid()
      modifies this, queues.Values
      ensures Valid()
      ensures (resp, Contents()) == Dispatch(old(Contents()), verb, path, body)
    {
      if verb == "POST" && StartsWith(path, NewRoute) {
        var name := QueueName(path, NewRoute);
        if name in queues {
          return Response(BadRequest, AlreadyExists(name));
        }
        InsertQueue(name);
        return Response(Ok, "");
      } else if verb == "DELETE" && StartsWith(path, DeleteRoute) {
        var name := QueueName(path, DeleteRoute);
        if name in queues {
          RemoveQueue(name);
          return Response(Ok, "");
        }
        return Response(BadRequest, CannotRemove(name));
      } else if verb == "GET" && StartsWith(path, GetRoute) {
        var name := QueueName(path, GetRoute);
        if name !in queues {
          return Response(NotFound, "");
        }
        var message := RetrieveFrom(name);
        return Response(Ok, message);
      } else if verb == "POST" && StartsWith(path, AddRoute) {
        var name := QueueName(path, AddRoute);
        if name !in queues {
          return Response(NotFound, "");
        }
        AddTo(name, Join(body, "\n"));
        return Response(Ok, "");
      }
      return Response(NotFound, "");
    }

    /** `handle_connection` on one request text: the response written back, or
        the panic that stops the handler before anything changes. */
    method HandleConnection(data: string) returns (outcome: Outcome)
      requires Valid()
      modifies this, queues.Values
      ensures Valid()
      ensures (outcome, Contents()) == Serve(old(Contents()), data)
    {
      var header, body := ParseRequest(data);
      if |header| == 0 {
        return Panicked(MissingRequestLine);
      }
      var firstLineParsed := Split(header[0], ' ');
      if |firstLineParsed| < 2 {
        return Panicked(MissingPath);
      }
      var resp := HandleRequest(firstLineParsed[0], firstLineParsed[1], body);
      return Written(Serialize(resp));
    }
  }
}
