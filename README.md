# message-queue, modelled in Dafny

A model of the core of a small in-memory message broker written in Rust. Clients
talk to it with a minimal HTTP-like protocol: `POST /new/<name>` creates a named
queue, `DELETE /delete/<name>` removes one, `POST /add/<name>` pushes the request
body as one message, and `GET /get/<name>` pops the oldest message. The model
covers the FIFO queue (`src/queue.rs`) and the server's request path
(`src/server.rs`): splitting the request text into header and body lines,
taking the method and path from the first line, routing against the
name-to-queue map, and the response text written back.

Files:

- `strings.dfy`, module `Strings`: the Rust string operations the request path
  relies on. `Split` is `str::split` with one character (always at least one
  piece), `Join` is `[String]::join`, `StartsWith` is `str::starts_with`, and
  `RemoveAll` is `str::replace(p, "")`, which deletes every occurrence of `p`.
- `queue.dfy`, module `MessageQueue`: the `Queue` class. Its `deque` field is the
  `VecDeque<String>`, with index 0 as the front, and its methods change it in
  place. `add_message` pushes at the front and `retrieve_message` pops at the
  back. So `Arrival(deque)`, the deque read back to front, lists the messages
  oldest first. Every FIFO property is stated through `Arrival`. The value-level
  functions `Added` and `Retrieved` specify the two methods. `AddAll`,
  `RetrieveTimes` and `Run` chain them to state the round trip and the
  interleaving property.
- `server.dfy`, module `MessageServer`: the pure specification and the `Server`
  class. `Dispatch` maps a method, a path and body lines to a response and the
  next registry (name to deque). It tests the routes in the order
  `handle_connection` does. `Partition` is the header/body split. `Serve` is
  one whole connection: parse, take the request-line tokens, route, serialise.
  `Serialize` and `Deserialize` give the response text and read it back.
  The `Server` class holds `queues: map<string, Queue>`, one `Queue` object per
  name, as the `HashMap<String, Queue>` does. Its `HandleRequest` and
  `HandleConnection` methods update the map and the queue objects in place. They
  are proved equal to `Dispatch` and `Serve` on the registry the objects hold
  (`Contents()`). Each route's change to the objects is one small method
  (`InsertQueue`, `RemoveQueue`, `RetrieveFrom`, `AddTo`). `ParseRequest` is `parse_request`'s `for` loop with its
  mutable `isHeader` flag, proved equal to `Partition`.

The input is the request as an already-decoded string. The output is the text
the handler writes on the stream (`Outcome.Written`). There is one other
outcome, `Outcome.Panicked`, for the two out-of-bounds indexings in
`handle_connection`: `header[0]` when the first line is the blank `"\r"` line,
and `first_line_parsed[1]` when the first line holds no space. In both cases
nothing is written and no queue changes.

Behaviour of the code that a reader might not expect, which the model keeps:

- A malformed request line is not answered at all: the code panics
  (`src/server.rs:41-44`) instead of replying, say, with 400. The model has the
  panic outcome (`ServePanics` says exactly when it happens).
- The queue name is not simply the rest of the path after the route prefix.
  The code uses `path.replace(prefix, "")`, which deletes every later
  occurrence of the prefix too (`QueueNameDropsLaterPrefixes`): `"/new/a/new/b"`
  creates the queue `"ab"` (`QueueNameDropsInnerPrefixes`). The name is the rest
  of the path when the prefix does not occur again (`QueueNameIsRemainder`).
- There are no locks: the server handles connections one at a time through
  `&mut self`, so the model is sequential.
- Lines are split on `"\n"` alone, so header and body lines keep their trailing
  `"\r"`. Only the first line equal to `"\r"` separates header from body; later
  ones are body lines.

## Model

| member | source | states |
|---|---|---|
| `MessageQueue.Queue.constructor` | src/queue.rs:11-14 | `new_queue` gives a queue holding no messages |
| `MessageQueue.Added` | src/queue.rs:19-21 | adding puts the message behind every message already queued; the others keep their order |
| `MessageQueue.Retrieved` | src/queue.rs:24-29 | on an empty deque the reply is `""` and the deque stays empty; otherwise the reply is the oldest message, the others stay in order, and the deque shrinks by exactly one |
| `MessageQueue.Queue.AddMessage` | src/queue.rs:19-21 | the in-place push: the new deque is `Added(old deque, message)`, so arrival order gains the message at its end |
| `MessageQueue.Queue.RetrieveMessage` | src/queue.rs:24-29 | the in-place pop: `""` and no change on an empty queue; otherwise the oldest message, which alone leaves |
| `MessageQueue.Arrival` | src/queue.rs:20 | reading the deque from back to front lists the messages oldest first, element by element |
| `MessageQueue.AddAllArrival` | src/queue.rs:19-21 | adding m1..mn appends m1..mn, in order, behind what was queued |
| `MessageQueue.RetrieveTimesArrival` | src/queue.rs:24-29 | n retrievals from a queue holding at least n messages return its n oldest, oldest first, and leave the rest in order |
| `MessageQueue.RetrieveTimesEmpty` | src/queue.rs:25-27 | every retrieval from an empty queue returns `""` and it stays empty |
| `MessageQueue.FifoRoundTrip` | src/queue.rs:19-29 | adding m1..mn to an empty queue, then retrieving n times, yields exactly m1..mn and leaves the queue empty |
| `MessageQueue.RunPreservesOrder` | src/queue.rs:19-29 | under any interleaving of adds and retrievals, queued-then-added equals retrieved-then-still-queued: no loss, no duplication, and no retrieval returns a message added after one still present |
| `Strings.Join` | src/server.rs:110 | `body.join("\n")`: no parts give `""`; otherwise the text starts with the first part and holds all the parts' characters plus one separator between each two neighbours; `SplitJoin` and `JoinSplit` are its inverses with `Split` |
| `Strings.StartsWithIsPrefix` | src/server.rs:48 | `path.starts_with(route)` (also lines 67, 83, 101) holds exactly when the path is the route followed by some text |
| `Strings.RemoveAll` | src/server.rs:49 | `path.replace(route, "")` (also lines 68, 84, 102) never lengthens the text, and shortens it by at least the route's length when the route occurs in it |
| `Strings.RemoveAllAfterFirst` | src/server.rs:49 | for every text: after a part in which `p` does not start, the next `p` is deleted and deletion carries on in the rest, so every later occurrence goes too |
| `Strings.Split` | src/server.rs:138 | `split` gives at least one piece, and no piece contains the separator |
| `Strings.JoinSplit` | src/server.rs:110 | joining the pieces of a split with the separator gives back the original text |
| `Strings.SplitWithout` | src/server.rs:42 | a text without the separator is one piece |
| `Strings.SplitAfterPiece` | src/server.rs:138 | a separator-free piece followed by the separator splits off as the first piece |
| `Strings.SplitJoin` | src/server.rs:110 | splitting undoes joining when no part contains the separator |
| `Strings.SplitIsSingle` | src/server.rs:42-44 | a split has a second piece exactly when the separator occurs |
| `Strings.RemoveAllAbsent` | src/server.rs:49 | `replace(p, "")` leaves a text without `p` unchanged |
| `Strings.StripLeading` | src/server.rs:49 | on a text that starts with `p` and has no later `p`, `replace(p, "")` strips just the leading `p` |
| `MessageServer.QueueNameIsRemainder` | src/server.rs:49 | the queue name is the path after the route prefix when the prefix does not occur again |
| `MessageServer.QueueName` | src/server.rs:49 | the queue name of a path that starts with the route is shorter than the path by at least the route |
| `MessageServer.QueueNameDropsLaterPrefixes` | src/server.rs:49 | for every path `route + a + route + b` in which the route does not start inside `a`, the name is `a` followed by `b` with the route deleted from it too |
| `MessageServer.QueueNameDropsInnerPrefixes` | src/server.rs:49 | an instance of the above: `/new/a/new/b` names the queue `ab` |
| `MessageServer.Dispatch` | src/server.rs:47-121 | the routing: a refused request (400 or 404) changes no queue; only a create or a delete changes which queues exist; only a retrieval answers 200 with a non-empty body. Route by route it is pinned by `CreateQueue`, `DeleteQueue`, `RetrieveFromQueue`, `AddToQueue` and `UnroutedRequest` |
| `MessageServer.CreateQueue` | src/server.rs:48-64 | POST `/new/`: a taken name gives 400 with body `Queue '<name>' already exists` and no change; otherwise 200 with an empty body, an empty queue under the name, every other entry unchanged |
| `MessageServer.DeleteQueue` | src/server.rs:67-80 | DELETE `/delete/`: a present name is removed, alone, with 200 and an empty body; an absent one gives 400 with body `Queue '<name>' cannot be removed as it does not exist` and no change |
| `MessageServer.RetrieveFromQueue` | src/server.rs:83-98 | GET `/get/`: a missing queue gives 404 with an empty body and no change; otherwise 200 with the oldest message as the body (`""` for an empty queue), and only that queue loses that message |
| `MessageServer.AddToQueue` | src/server.rs:101-117 | POST `/add/`: a missing queue gives 404 and no change; otherwise the body lines joined with `"\n"` join that queue as its newest message, with 200 and an empty body, and no other queue changes |
| `MessageServer.UnroutedRequest` | src/server.rs:119-121 | any other method and path, a method in the wrong case included, gives 404 with an empty body and no change |
| `MessageServer.AddThenGet` | src/server.rs:83-117 | a message added to an empty queue is what the next retrieval from it returns, and the registry is then as before |
| `MessageServer.StatusLineFormat` | src/server.rs:157-175 | each of the three status texts is an `HTTP/1.1 ` status line ended by `"\r\n"` and followed by the empty line |
| `MessageServer.Serialize` | src/server.rs:157-181 | what is written for a response is its status line followed by exactly its body, nothing else |
| `MessageServer.SerializeRoundTrip` | src/server.rs:157-181 | the response text reads back to its status (`200 OK`, `400 Bad Request`, `404 Not Found`) and its body |
| `MessageServer.SerializeInjective` | src/server.rs:157-181 | two different responses never produce the same text |
| `MessageServer.FirstIndex` | src/server.rs:140-144 | the position found holds the line, and no earlier line equals it |
| `MessageServer.Partition` | src/server.rs:137-152 | header lines, then `"\r"` when one was seen, then body lines give back the lines; the header has no `"\r"` line; with no `"\r"` line the body is empty |
| `MessageServer.PartitionUnique` | src/server.rs:140-150 | any split around a `"\r"` line whose header has no `"\r"` line is Partition's: only the first `"\r"` is dropped, and later ones go to the body |
| `MessageServer.ParseRequest` | src/server.rs:137-153 | the flag-driven loop computes exactly Partition of the request text split on `"\n"` |
| `MessageServer.Serve` | src/server.rs:35-124 | one whole connection: a panic changes no queue, every text written reads back as a response, and any answer but 200 changes no queue |
| `MessageServer.ServePanics` | src/server.rs:41-44 | the handler panics on `header[0]` exactly when the first line is `"\r"`, and on `first_line_parsed[1]` exactly when it is not `"\r"` and holds no space; a panic changes nothing; otherwise a well-formed response is written |
| `MessageServer.FieldLinesSplit` | src/server.rs:138 | header-field lines free of `"\n"` split back into one line per field, before the lines of what follows |
| `MessageServer.RequestTextLines` | src/server.rs:138 | a request written as request line, header fields, blank line, body splits into the request line, the fields, `"\r"`, and the body's lines |
| `MessageServer.RequestLineTokens` | src/server.rs:42-44 | the request line's first two space-separated tokens are the method and the path |
| `MessageServer.RequestReachesDispatch` | src/server.rs:36-44 | a request with any header fields (such as `Host:`), none of them the blank `"\r"` line, reaches routing with its own method, path and body lines; the fields play no part, and the routed response is what is written |
| `MessageServer.AddOverTheWire` | src/server.rs:101-117 | over the wire, with any header fields, POST `/add/<name>` on an existing queue writes `HTTP/1.1 200 OK\r\n\r\n` and queues the request body, line breaks included, as one message |
| `MessageServer.GetOverTheWire` | src/server.rs:83-98 | over the wire, with any header fields and any body, GET `/get/<name>` on an existing queue writes `HTTP/1.1 200 OK\r\n\r\n` followed by what `retrieve_message` returns |
| `MessageServer.Server.constructor` | src/server.rs:12-17 | `new_server` starts with no queues |
| `MessageServer.Server.InsertQueue` | src/server.rs:60 | `insert` of a fresh queue under an absent name: the registry gains that name with no messages, and distinct names keep distinct queue objects |
| `MessageServer.Server.RemoveQueue` | src/server.rs:70 | `remove` of a present name: only that entry leaves the registry |
| `MessageServer.Server.RetrieveFrom` | src/server.rs:92 | `retrieve_message` on the named queue: the reply and that queue's new contents are `Retrieved`'s, and no other queue changes |
| `MessageServer.Server.AddTo` | src/server.rs:110-111 | `add_message` on the named queue: its new contents are `Added`'s, and no other queue changes |
| `MessageServer.Server.HandleRequest` | src/server.rs:47-121 | routing in place on the queue objects: the response and the new registry are Dispatch's, and distinct names keep distinct queue objects |
| `MessageServer.Server.HandleConnection` | src/server.rs:35-124 | one connection in place: the written text or the panic, and the new registry, are Serve's |

## Left out

- The TCP listener, the bind to port 8080, the serial accept loop and the `port` field (`src/server.rs:7,14,23-32`): network start-up.
- Reading the request with `fill_buf`/`consume` (`src/server.rs:130-131`): the model takes the request text as given. It does not model that one `fill_buf` returns at most one buffer's worth, so a long request is cut short there.
- `String::from_utf8(...).unwrap()` (`src/server.rs:132`): the input is already-decoded text, so the panic on invalid UTF-8 is not modelled.
- The `write_all` calls and their `Result` errors, with the `.unwrap()` panics on them (`src/server.rs:53-121,157-181`): the response is returned as a string.
- `println!` logging (`src/server.rs:24,58,93,113,120`): console output only.
- `Outcome.Panicked` stands for a panic that, in the program, unwinds out of the accept loop and stops the server. The model records the outcome but does not model the server stopping: a `Server` object can still be used afterwards.
- Concurrency: the code has no locks or threads and serves one connection at a time, so the model has no lock discipline.
- A message equal to `""` and the empty-queue sentinel give the same response; the model, like the program, does not tell them apart on the wire.
