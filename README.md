# Graph registry server: node, link and store model

This project models the core of a small Express server for graph data. The server keeps one in-memory array, `database`. That array holds two kinds of record in arrival order:

- nodes, built from an IP string. The `id` is the IP itself. The `label` is the IP with every `.` replaced by `_`. The label is computed as `ip.split(".").join("_")`.
- links, built from a source and a target string. The `id` is `source-target`.

`POST /addnode` and `POST /addlink` each build one record, push it onto the array and return it. `GET /data` returns the array.

The model has three modules:

- `JsText` (`jstext.dfy`) models the JavaScript built-ins the label relies on. These are `split` with a one-character separator and `join`. It also gives a per-character replacement as an independent reference definition and proves that `split` followed by `join` equals that replacement.
- `Graph` (`graph.dfy`) models the `Node` and `Link` constructors as functions. It proves the label's properties and what a link id determines.
- `Server` (`server.dfy`) models the store as a class `Database` with a `seq<Entry>` field. The handlers are methods that append to it. The invariant `Valid` says every stored entry is exactly what a constructor builds.

## Model

| member | source | states |
|---|---|---|
| `JsText.Split` | index.js:17 | `ip.split(".")` yields at least one piece, and no piece contains the separator |
| `JsText.ReplaceAt` | index.js:17 | the reference replacement holds the replacement character exactly where the input had the separator, and the input character everywhere else |
| `JsText.SplitJoinIsReplace` | index.js:17 | splitting at `c` and joining with `d` equals replacing every `c` by `d` |
| `JsText.JoinSplitRoundTrip` | index.js:17 | joining the pieces with the separator they were split at gives back the original text |
| `Graph.NewNode` | index.js:14-22 | a new node has `ip == id ==` the input, and a label of the same length that has `_` where the IP has `.` and the IP's character elsewhere |
| `Graph.LabelIsDotReplacement` | index.js:17 | the label computed by split and join is the per-character replacement of `.` by `_` |
| `Graph.LabelHasNoDot` | index.js:17 | a node label never contains `.` |
| `Graph.LabelWithoutDots` | index.js:17 | an IP without any `.` is its own label |
| `Graph.LabelIdempotent` | index.js:17 | applying the label transformation to a label leaves it unchanged |
| `Graph.LabelsCollide` | index.js:17 | two IPs that differ only by `.` against `_` at some positions get the same label, so the label does not determine the IP |
| `Graph.NewLink` | index.js:32-37 | a new link keeps `source` and `target` as given; its id is the source, then `-`, then the target |
| `Graph.LinkIdInjective` | index.js:34 | when neither source contains `-`, equal link ids mean equal sources and equal targets |
| `Graph.LinkIdsCollide` | index.js:34 | with a `-` inside an endpoint, two different (source, target) pairs produce the same link id |
| `Server.BuiltEntryShape` | index.js:7-39 | every entry a constructor builds is a node whose id is its IP and whose label has no `.`, or a link whose id is `source-target` |
| `Server.Database.constructor` | index.js:7 | the store starts as an empty array |
| `Server.Database.AddNode` | index.js:48-53 | the store grows by exactly the new node at the end, earlier entries unchanged and in order; the invariant is kept; the appended node is returned |
| `Server.Database.AddLink` | index.js:55-61 | the store grows by exactly the new link at the end, earlier entries unchanged and in order; the invariant is kept; the appended link is returned; no endpoint is checked against stored nodes |
| `Server.Database.Data` | index.js:44-46 | returns the whole store in arrival order and modifies nothing |
| `Server.RegisterTwice` | index.js:48-53 | adding the same IP twice stores two equal node entries with the same id, because there is no uniqueness check |
| `Server.NodeThenLink` | index.js:44-61 | a node followed by a link to a target that was never registered are both stored in request order, and each is well formed |

## Left out

- Express, CORS, JSON body parsing, `app.listen` and HTTP status codes (index.js:1-5, 41-42, 63-65) are framework plumbing and I/O. The model has no I/O.
- JSON serialisation of responses is a library call. Also, each record's fields sit under a `data` key in the source's objects. The model's `Node` and `Link` hold those fields directly. The model calls the node's `label` field `labelText`, because `label` is a reserved word in Dafny.
- Request fields that are missing or not strings are not modelled. In JavaScript, `split` on `undefined` throws, and an `undefined` endpoint becomes the text `undefined` in a link id. All inputs are modelled as strings.
- `JsText.Split` models `split` only for a one-character separator. That is the only form the source uses.
- Concurrency is not modelled. Each handler runs to completion on the event loop, so a sequential model matches the source.
- The source has no code for request validation, port inventories, reference-data lookups of labels and ports, random ids, separate node and link collections, a graph view or push notifications, so the model has none of them either.
