# p2p-file: sender queue, receive assembler and peer address, in Dafny

p2p-file is a browser client that sends files directly from one peer to
another. The receiver gets a peer identifier from a broker and shares a link
(or a QR code) whose path is `/send/<id>`. The sender opens that link, queues
files and presses Send. Its page dials the id taken from its own path and
sends one `{filename, filetype, filesize, filedata}` message per queued file.
The receiver lists each arriving file and answers it with `{ack: filename}`.
The sender then removes the acknowledged files from its queue.

This project models the logic beneath the two React components. Network
events are replaced by method calls: "a payload arrived" and "an
acknowledgement arrived".

- `Protocol.dfy`: the records. A browser `File` is a subset type whose size
  is the length of its contents. It also defines the payload, the
  acknowledgement and the receiver's `ReceivedFile` record.
- `Text.dfy`: JavaScript's `split` on one character and `trim`, both
  specified against independent characterisations. It also defines the
  20-character display shortening used by both pages.
- `Address.dfy`: the share link, the QR value and the sender's dial target,
  `pathname.split("/")[2].trim()`. It proves the round trip from id to link
  path and back to id.
- `SenderQueue.dfy`: the pure state updaters of the sender component, and the
  component itself as class `Sender`. The class has the fields `files` and
  `acked`, plus `Add`, `RemoveAt`, `SendBatch` and `OnAck`. A sequence of
  acknowledgements is proved to leave exactly the files that none of them
  names, in order.
- `ReceiveAssembler.dfy`: the receiver component as class `Receiver`. It has
  an append-only `received` list, a ghost log of arrived payloads and a ghost
  log of sent acknowledgements, tied together by `Valid()`.
- `Exchange.dfy`: the two sides together. A batch answered in any arrival
  order empties the sender's queue of that batch. Two client methods replay
  the one-file and two-file exchanges with the classes' contracts; the
  two-file one starts from any path that names a peer.

Points where the code behaves differently from what a reader might expect;
the model follows the code:

- One acknowledgement removes every queued file with that name, not only
  the first one (`Sender.tsx:66`).
- `if (files)` in `handleSendFiles` is always true for an array. Pressing
  Send with an empty queue would still dial. Only the hidden Send button
  (`Sender.tsx:120`) prevents that.
- The copied link uses the public origin, but the QR code encodes
  `http://localhost:5173` (`Receiver.tsx:94`). Both carry the same path, so
  they lead to the same dial target.
- The receiver stores the declared `filesize` without checking it. Only
  payloads built by the sender are proved consistent with their data.

## Model

| member | source | states |
|---|---|---|
| `Text.Split` | src/components/action/Sender.tsx:46 | `split("/")` yields one more segment than there are separators, no segment contains the separator, and joining the segments with it gives back the input |
| `Text.Trim` | src/components/action/Sender.tsx:46 | `trim()` yields a contiguous middle of the input with no white space at either end, and everything removed around it is ECMAScript white space or a line terminator |
| `Text.TrimIsUnique` | src/components/action/Sender.tsx:46 | any non-empty middle that starts and ends with a non-space character and has only white space around it is exactly what `trim()` returns |
| `Text.TrimOfSpace` | src/components/action/Sender.tsx:46 | a segment made only of white space trims to the empty string |
| `Text.TrimKeepsTrimmed` | src/components/action/Sender.tsx:46 | a segment with no white space at either end is returned unchanged |
| `Text.Shorten` | src/components/action/Sender.tsx:130 | a name of at most 20 characters is shown as it is; a longer one is shown as its first 20 characters followed by "...", 23 characters in all |
| `Text.ShortenIsIdempotent` | src/components/action/Sender.tsx:130 | shortening a displayed label again leaves it unchanged |
| `Text.ShortenCollides` | src/components/action/Receiver.tsx:75 | two received names longer than 20 characters get the same label exactly when their first 20 characters agree |
| `Address.ShareLink` | src/components/action/Receiver.tsx:32 | the copied link is the public origin followed by `/send/` and the peer id, so the id is the text after the origin and the route |
| `Address.QrValue` | src/components/action/Receiver.tsx:94 | the QR value is the local development origin followed by the same `/send/<id>` path as the copied link |
| `Address.DialTarget` | src/components/action/Sender.tsx:46 | a third segment exists exactly when the path has at least two `/`; otherwise the expression throws (`None`). A target that exists contains no `/` and no white space at either end |
| `Address.DialTargetOfSendPath` | src/components/action/Sender.tsx:46 | on `/send/<tail>` with no `/` in the tail, the dialled id is the trimmed tail |
| `Address.ShareLinkRoundTrip` | src/components/action/Receiver.tsx:32 | the sender dials exactly the id that the receiver put in the link path, provided the id has no `/` and no white space at either end |
| `Address.SlashInIdIsCut` | src/components/action/Sender.tsx:46 | if the id contains a `/`, only the trimmed part before it is dialled |
| `SenderQueue.WithoutIndex` | src/components/action/Sender.tsx:133 | removing at index `i` deletes exactly the entry at `i` and keeps the rest in order; an index outside the queue changes nothing |
| `SenderQueue.KeepUnackedCounts` | src/components/action/Sender.tsx:66 | filtering by acknowledged names drops every copy of each named file and keeps every other file as many times as before |
| `SenderQueue.KeepUnackedInOrder` | src/components/action/Sender.tsx:66 | the files that remain after the filter keep their relative order |
| `SenderQueue.KeepUnackedKeepsAll` | src/components/action/Sender.tsx:66 | a queue in which no file is named by an acknowledgement is kept whole |
| `SenderQueue.KeepUnackedDropsAll` | src/components/action/Sender.tsx:66 | a queue in which every file is named by some acknowledgement is emptied |
| `SenderQueue.RemoveNamed` | src/components/action/Sender.tsx:66 | the handler's filter `file.name !== data.ack` equals the reference filter for the single acknowledgement `{ack: name}` |
| `SenderQueue.RemoveUnknownNameIsNoop` | src/components/action/Sender.tsx:66 | an acknowledgement for a name that is not queued leaves the queue unchanged |
| `SenderQueue.RemoveNamedCounts` | src/components/action/Sender.tsx:66 | one acknowledgement removes every file with its name, however many there are, and keeps the count of every other file |
| `SenderQueue.KeepUnackedAfterRemove` | src/components/action/Sender.tsx:66 | applying the handler for one name and then filtering by a list of names is the same as filtering by the name followed by the list |
| `SenderQueue.KeepUnackedAppend` | src/components/action/Sender.tsx:66 | filtering a queue is the same as filtering its two halves and joining the results |
| `SenderQueue.ApplyAcksKeepsUnacked` | src/components/action/Sender.tsx:61-70 | after the handler has run for a sequence of acknowledgements, the queue is exactly the files that none of them names, in their original order |
| `SenderQueue.AckedFilesLeaveOthersStay` | src/components/action/Sender.tsx:61-70 | after those acknowledgements, a file is still queued exactly when it was queued before and none of them names it, so a file whose acknowledgement never arrives stays |
| `SenderQueue.Sender.constructor` | src/components/action/Sender.tsx:13-17 | the component starts with an empty queue and an empty acknowledged list |
| `SenderQueue.Sender.Add` | src/components/action/Sender.tsx:21-36 | dropped or picked files go after the existing queue, the existing entries keep their order, the length grows by the number added, and the acknowledged list is untouched |
| `SenderQueue.Sender.RemoveAt` | src/components/action/Sender.tsx:133 | the trash button of row `index` removes exactly that entry; an out-of-range index leaves the queue unchanged |
| `SenderQueue.Sender.SendBatch` | src/components/action/Sender.tsx:42-60 | without a peer nothing happens; a path without a third segment fails; otherwise the call dials the dial target and builds one payload per queued file, whose name, type, size and data are that file's, with the size equal to the data length; the payloads are exactly `Batch(files)`, the batch the exchange lemmas speak about |
| `SenderQueue.Sender.OnAck` | src/components/action/Sender.tsx:61-66 | an acknowledgement removes every queued file with its name and puts the name first in the acknowledged list, which grows by exactly one and keeps duplicates |
| `ReceiveAssembler.AcksFor` | src/components/action/Receiver.tsx:45-54 | the acknowledgements sent for a sequence of payloads are one per payload, in arrival order, each carrying that payload's file name, with duplicates kept |
| `ReceiveAssembler.Receiver.constructor` | src/components/action/Receiver.tsx:29 | the receiver starts with no records and has sent no acknowledgements |
| `ReceiveAssembler.Receiver.OnData` | src/components/action/Receiver.tsx:45-54 | each payload appends exactly one record with its declared name and size to the end of the list and leaves earlier records unchanged; it sends exactly one `{ack: filename}`; after N payloads there are N records and N acknowledgements, both in arrival order |
| `Exchange.BatchNamesQueue` | src/components/action/Sender.tsx:48-57 | whatever order a batch's payloads arrive in, each queued file's name is carried by one of the acknowledgements that answer them |
| `Exchange.AnsweredBatchLeavesQueue` | src/components/action/Sender.tsx:61-66 | once the receiver has answered a whole batch (in any order) and the sender has handled the answers, no file of the batch is left; files queued after Send stay unless an answer carries their name |
| `Exchange.AnsweredPairLeavesQueue` | src/components/action/Sender.tsx:61-66 | two queued files whose acknowledgements come back in the opposite order both leave the queue |

## Left out

- The `peerjs` library is not modelled. That covers identity allocation
  (`App.tsx:11-17`), `peerRef.connect`, the transport behind `conn.on` and
  `conn.send`, and handler registration and removal
  (`Receiver.tsx:43-62`). A payload arriving is a call to
  `Receiver.OnData`. An acknowledgement arriving is a call to
  `Sender.OnAck`. `SendBatch` returns the payloads that are sent once the
  connection opens.
- `FileReader` reads are asynchronous and can finish in any order
  (`Sender.tsx:49-59`). `SendBatch` lists the payloads in queue order. The
  properties about the far side take any arrival order: any sequence with
  the same multiset of payloads.
- `Sender.SendBatch`: a payload is sent only from `reader.onload`, and there
  is no `onerror` handler. A read that fails sends nothing for that file,
  so the file is never acknowledged and stays queued. The model assumes
  every read succeeds and builds one payload for every queued file.
- `Sender.SendBatch`: the `File` subset type assumes that the browser
  reports `size` as the byte length of the contents. The `Consistent`
  clause of `SendBatch` follows from that assumption; it is not proved
  about the browser.
- `Blob` and `URL.createObjectURL` (`Receiver.tsx:46-47`) are browser calls.
  The object URL is an opaque string parameter of `OnData`. That the URL's
  contents are the payload's bytes and type is not modelled.
- Not modelled, because they are timers and UI state: clipboard writes, the
  `showAck` and `copied` toasts and their timeouts, and the `isUploading`
  and `isHovered` flags.
- The KB size display `(size / 1024).toFixed(2)` is floating-point
  formatting (`Sender.tsx:132`, `Receiver.tsx:76`).
- `Landing.tsx` and `App.tsx` only hold routing and library set-up. Neither
  is part of this model.
- Not modelled: QR rendering, animations, hover styling and layout.
- `Text.Shorten`: it counts Unicode scalar values. JavaScript's `length`
  and `slice` count UTF-16 code units, so the two differ for names with
  characters outside the Basic Multilingual Plane.
- `Text.Trim`: it works on Unicode scalar values, not on UTF-16 code
  units.
- `Address.ShareLinkRoundTrip`: it is stated on the link's path. The
  browser's parsing of the full URL into `location.pathname` (percent
  encoding, dot segments, query and fragment) is not modelled.
- The ack handler reads `data.ack` from any message. A message without that
  field is not modelled: acknowledgements carry a string. The receiver's
  handling of a malformed payload is not modelled either.
- The `if (event.dataTransfer.files)` and `if (event.target.files)` guards
  are not modelled, because a browser always supplies the list. `Add` takes
  the list itself.
- Each press of Send opens a new connection and registers another ack
  handler. The model treats every acknowledgement the same, whichever
  connection it arrives on.
