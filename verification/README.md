# Redeluge, verified

Dafny models of the parts of Redeluge, a BitTorrent daemon that speaks Deluge's protocol, where the
code computes one thing in two ways, keeps a state over a long run, or undoes what it did before,
and proofs that the two agree, the state is kept and the undoing is exact.

- **The wire.** `RencodeValue`, `RencodeEncode`, `RencodeDecode`: the rencode codec, both halves as
  the source has them (a writer appending to one buffer, a recursive descent over one moving
  cursor), each proved against a specification. `RencodeWire` and `RencodeWritten` give the format
  in literal bytes and prove that it is what the one reads and the other writes; `RencodeLaws` and
  `RencodeShortest` prove the round trip, that messages delimit themselves, and that the encoder's
  form is the shortest any accepted message can have. `Utf8` is what counts as text. `Transfer` puts
  frames back together from arbitrary reads. `RpcMessage`, `RpcClient` and `RpcTask` pair replies
  with calls: a step protocol of callers, channel, socket and daemon, its laws over every run, and
  the socket task as a class that refines it; `RpcShapes` and `RpcCalls` say what a message tells
  its caller, and what the daemon reads of the calls.
- **Torrent files.** `Bencode`, `BencodeGrammar`, `BencodeLaws`: the parser that reports the span
  of a member, over which an infohash is taken, and the exact language it takes.
- **The status pipeline.** `TrackerCache`, `TorrentState`, `Status`, `StatusLaws`, `Search`,
  `Sidebar`, `TrackerInfo`, `TrackerFigures`: filter pushdown, what a filter and a search find, the
  cached fallback tracker, the sidebar's counts and the trackers window, each against the plain
  computation it stands in for.
- **State files.** `StateFiles`: the writer thread, its three-step replace, a crash between any two
  steps, and the loader that falls back to the backup, with what it then finds there.
- **The peer ledger.** `PeerLedger`, `PeerLedgerLaws`: totals accumulated by difference from
  counters that reset, and exactly when they claim more, or less, than was moved.
- **Text and arithmetic in place.** `Minify`, `MinifyPieces`, `MinifyLaws`; `ConfigFile`,
  `ConfigLaws`, `Json`; `Base64`, `Base64Laws`; `Pieces`, `PiecesLaws`.

`Bytes` holds what they share. Code that updates things in place is a class or a method with a
loop, proved against a function; what the source promises is then proved of that function, which is
tied to literal bytes, words and fields by a second definition that does not mention it.
`dafny verify dfyconfig.toml` checks everything.

What the code calls is a parameter where it is not part of the model: zlib is a pair of functions
(mutually inverse where that is assumed); lower-casing, trimming, the host of an announce URL and
the tracker rules' countdowns for a torrent are the fields of `Words`; reading the state file's JSON
is a function, reading the configuration's is a reader of RFC 8259; libtorrent's answers are
arguments. UTF-8 validity is defined in full (`Utf8`), floats of the wire are their bytes, and times
are reals.

Where the source differs from what its comments, or a reader, would expect, the model follows the
code:

- The peer ledger's `forget_connections` says it is called when the daemon stops. `save_peers`
  also calls it on every periodic save, while connections go on, and what they had moved is then
  counted again: `CountsAgainIffCutShort` is exactly when. Samples are kept by address and torrent,
  so that two connections behind one address are taken for one: `CountsAgainIffTakeTurns`.
  `OneSampleIff` has the condition of one call and `AlwaysExactIff` that of a whole trace.
- Between the arrival of a magnet's metadata and the handling of its alert the cached first tracker
  may be stale: `StaleIffPending` is exactly when, over every life of a torrent, and
  `SessionState.TrackerList` and `RowIsRestrictedIff` exactly when that shows.
- A tracker host or an owner literally called "All" gets a sidebar row whose filter takes every
  torrent: `CountsAgree` has the exact condition.
- The quick search treats a search for "All" as no search, as every filter does its values:
  `SearchAnswer`.
- Bencoded numerals may have a plus sign or leading zeros, and lengths leading zeros, which BEP 3
  does not have: `BencodeGrammar.DecodedIff`.
- `config.rs` announces a four-space indent; its printer writes two, and so does `ConfigFile`.
- Turning off the priority of first and last pieces restores what was there only under the
  condition of `OffRestoresIff`, and, unlike turning it on, may depend on the order of the files:
  `OffInAnyOrderIff`.
- The minifier erases a comment rather than replacing it by a blank (`CommentsKeepNothingApart`),
  and need not settle on sources with a literal cut off by its line end: `MinifiedStaysIff` has the
  exact condition, `MinifiedStays` one that can be seen in the source.
- A frame's length is cut to its low 32 bits, so that a longer body goes out under a wrong length,
  and a sender does not look at the receiver's limits: `FrameArrivesIff`.

## Model

| member | source | states |
|---|---|---|
| `RencodeEncode.ToVec` | crates/redeluge-rencode/src/encode.rs:12-16 | A value is written as its specified encoding `Encoded`, which `EncodedIsForm` gives in literal bytes and `RoundTrip`, `EncoderIsShortest` and `PrefixFree` are about. |
| `RencodeEncode.Encoder.Write` | crates/redeluge-rencode/src/encode.rs:18-70 | One value appends exactly its encoding to the buffer and disturbs nothing already there; lists below 64 and dictionaries below 25 carry their count in the type code, longer ones are terminated. |
| `RencodeEncode.Encoder.WriteInt` | crates/redeluge-rencode/src/encode.rs:72-90 | An integer is appended in the narrowest of the one-, two-, three-, five- and nine-byte forms that holds it. |
| `RencodeEncode.Encoder.WriteString` | crates/redeluge-rencode/src/encode.rs:92-101 | A string below 64 bytes is appended behind a single type byte, a longer one behind its decimal length and a colon. |
| `RencodeWritten.EncodedIsForm` | crates/redeluge-rencode/src/encode.rs:18-101 | Every value at all is written as its form on the wire, code by code in literal bytes: 69, 67 and 68 for none, true and false, `n` and `69 - n` for small integers, 62 to 65 with one, two, four or eight bytes by explicit quotients, 66 and 44 before floats, 128, 192 and 102 plus a count, 59, 60 and 61 up to 127. |
| `RencodeWritten.PlainestBytes` | crates/redeluge-rencode/src/format.rs:9-46 | What a peer sees of the plainest values, byte for byte. |
| `RencodeDecode.FromSlice` | crates/redeluge-rencode/src/decode.rs:24-37 | A whole message decodes as specified, and bytes behind the value are an error that counts them. |
| `RencodeDecode.FromSlicePrefix` | crates/redeluge-rencode/src/decode.rs:43-51 | The value a buffer starts with and how many bytes it took, or the decoder's error. |
| `RencodeDecode.Decoder.Take` | crates/redeluge-rencode/src/decode.rs:60-75 | The shared cursor moves behind what was taken, and stays when the input is too short. |
| `RencodeDecode.Decoder.ReadValue` | crates/redeluge-rencode/src/decode.rs:98-266 | The recursive descent over one moving cursor answers what the specification does, value, end and error alike, for every type code and every depth up to the limit. |
| `RencodeDecode.Decoder.ReadDecimalInt` | crates/redeluge-rencode/src/decode.rs:269-330 | A decimal integer is read as specified: within 64 bits as a number, beyond as its digits, and not at all when empty, too long or not digits. |
| `RencodeDecode.Decoder.ReadPrefixedString` | crates/redeluge-rencode/src/decode.rs:333-360 | A string behind its length is read as specified, the length bounded before anything is taken. |
| `RencodeWire.DecodedIff` | crates/redeluge-rencode/src/decode.rs:24-37 | The decoder's language and its meaning: a message decodes to a value exactly when it is the writing of a proper form of the literal grammar `Wire` (every type code, every limit on depth, digits and length, terminators, both string modes) whose meaning that value is. |
| `RencodeWire.FormIsRead` | crates/redeluge-rencode/src/decode.rs:98-360 | One half: every proper form, wherever in a buffer and however deep it lies, is read as what it means, to its last byte. |
| `RencodeWire.ReadIsForm` | crates/redeluge-rencode/src/decode.rs:98-360 | The other half: whatever is read anywhere in a message is a proper form. |
| `RencodeWire.CodeMeans` | crates/redeluge-rencode/src/decode.rs:98-266 | What each of the type codes leads to, and that 45, 46, 47, 58 and 127 are refused. |
| `Utf8.IsUtf8Iff` | crates/redeluge-rencode/src/decode.rs:362-375 | The bytes taken for text are exactly the spellings of code points in section 3 of RFC 3629: no surrogate, nothing overlong, nothing beyond U+10FFFF. |
| `RencodeLaws.RoundTrip` | crates/redeluge-rencode/src/decode.rs:24-37 | Every carried value (depth at most 64, strings at most 64 MiB, big integers canonical and beyond 64 bits, strings in the variant the mode gives) decodes from its encoding unchanged, nothing left over. |
| `RencodeLaws.ComesBack` | crates/redeluge-rencode/src/encode.rs:18-101 | The same wherever in a buffer the encoding stands, whatever surrounds it, at every depth and over the 63/64 and 24/25 boundaries. |
| `RencodeLaws.SelfDelimiting` | crates/redeluge-rencode/src/decode.rs:43-51 | Appending any bytes to an accepted message changes neither the value nor the length taken. |
| `RencodeLaws.PrefixFree` | crates/redeluge-rencode/src/decode.rs:24-37 | No proper prefix of a complete message is a complete message. |
| `RencodeLaws.DecodedAtExtends` | crates/redeluge-rencode/src/decode.rs:98-266 | Locality of the decoder: success depends on the bytes consumed alone, at every offset and depth. |
| `RencodeShortest.EncoderIsShortest` | crates/redeluge-rencode/src/encode.rs:4-101 | Of all byte strings accepted for a value the encoder's is the shortest, and the only one of its length. |
| `RencodeShortest.Accepted` | crates/redeluge-rencode/src/decode.rs:98-266 | The induction behind it: what is read anywhere in a message is carried, and its encoding is no longer than the bytes it was read from. |
| `RencodeShortest.AcceptedIffCarried` | crates/redeluge-rencode/src/decode.rs:98-360 | The values some message decodes to are exactly the carried ones. |
| `RencodeShortest.DecodedIsCarried` | crates/redeluge-rencode/src/decode.rs:98-360 | A decoded value respects the limits on nesting and length, and is in the one form the mode gives it. |
| `RencodeShortest.ReencodingIsStable` | crates/redeluge-rencode/src/encode.rs:12-16 | Writing what was read and reading it again gives the same value. |
| `RencodeShortest.NoMoreNodesThanBytes` | crates/redeluge-rencode/src/decode.rs:98-266 | An accepted message holds no more values than it has bytes. |
| `RencodeShortest.EncodingIsInjective` | crates/redeluge-rencode/src/encode.rs:12-16 | Two carried values with the same encoding are the same value. |
| `RencodeLaws.FirstByte` | crates/redeluge-rencode/src/format.rs:9-46 | No value's encoding starts with the terminator, so a terminated list or dictionary ends where it was meant to. |
| `Transfer.EncodeFrame` | crates/redeluge-rpc/src/transfer.rs:83-100 | A frame is the version byte, the low 32 bits of the compressed length in four big-endian bytes and the compressed encoding; the one error is the compressor's. |
| `Transfer.DecodeBody` | crates/redeluge-rpc/src/transfer.rs:103-119 | A body is inflated up to one byte beyond the limit and refused if that byte is there, else decoded. |
| `RpcShapes.FrameOnTheWire` | crates/redeluge-rpc/src/transfer.rs:94-99 | A frame in bytes: 1, the length by explicit quotients, the body. |
| `RpcShapes.HeaderDecides` | crates/redeluge-rpc/src/transfer.rs:156-194 | What the five bytes of a header decide, with the length as an explicit sum: wait, refuse the version, refuse the length, wait for the body, or take it. |
| `Transfer.FrameReader.Feed` | crates/redeluge-rpc/src/transfer.rs:147-149 | Feeding appends to what is pending, with or without a header already taken off. |
| `Transfer.FrameReader.NextMessage` | crates/redeluge-rpc/src/transfer.rs:156-194 | One step answers what the front of the pending stream holds: a message taken off whole, an error, or nothing yet with fewer bytes held than a header or than the frame limit. |
| `Transfer.FrameReader.Receive` | crates/redeluge-rpc/src/client.rs:280-300 | Feed, then drain: the messages and the fault of the pending stream with the chunk behind it. |
| `Transfer.ReceiveAll` | crates/redeluge-rpc/src/transfer.rs:147-194 | Chunk independence: for every way of cutting a stream into reads, messages and first error are those of the stream read at once. |
| `Transfer.MessagesSplit` | crates/redeluge-rpc/src/transfer.rs:156-194 | The algebra behind it: reading a stream in two parts gives the messages of the whole, stopping at the first error. |
| `Transfer.LongerStreamsOnlyAdd` | crates/redeluge-rpc/src/transfer.rs:156-194 | More bytes only add messages behind those there already, and none at all after an error. |
| `Transfer.FrameArrives` | crates/redeluge-rpc/src/transfer.rs:83-119 | A frame made within the limits is taken off whole as the value it was made from, whatever follows. |
| `Transfer.FrameArrivesIff` | crates/redeluge-rpc/src/transfer.rs:83-119 | A frame that could be made comes back as its value, whatever follows, exactly when the value is carried, its encoding within the body limit and its compressed form within the frame limit and 32 bits: the sender checks none of these. |
| `Transfer.StreamArrives` | crates/redeluge-rpc/src/transfer.rs:83-194 | Frames sent one behind another arrive as their values, in order, all of them, and nothing is left in the buffer. |
| `RpcClient.StepKeeps` | crates/redeluge-rpc/src/client.rs:174-338 | Every step of caller, channel, socket and daemon keeps the books: each call is in one place, and answered exactly when it is due. |
| `RpcClient.RunsKeepBooks` | crates/redeluge-rpc/src/client.rs:174-338 | So does every run, while the 64-bit counter has not come round. |
| `RpcClient.NeverAnsweredTwice` | crates/redeluge-rpc/src/client.rs:244-338 | Over every run no call's reply channel is used twice, and one that is used is used once. |
| `RpcClient.OnlyItsOwnReply` | crates/redeluge-rpc/src/client.rs:307-329 | Over every run a call is answered with a result or a remote failure exactly when the first message with its own id heard since it was written says so. |
| `RpcClient.EndedMeansAnswered` | crates/redeluge-rpc/src/client.rs:244-305 | Once the socket task has ended nobody waits, the channel is empty and every call written to the socket has its answer; the others were never taken, or were refused or dropped unused. |
| `RpcClient.EventsInOrder` | crates/redeluge-rpc/src/client.rs:307-329 | Subscribers get the events heard, in order, none lost and none made up. |
| `RpcShapes.RequestOnTheWire` | crates/redeluge-rpc/src/message.rs:48-61 | A request on the wire is a list of one list of four: id, name, arguments and keyword arguments, in this order. |
| `RpcShapes.ResponseIff` | crates/redeluge-rpc/src/message.rs:132-144 | A message is a reply with a result exactly when it is a list that starts with 1 and the id; the result is the third field, unwrapped if that is a list of one, and none if there is no third. |
| `RpcShapes.FaultIff` | crates/redeluge-rpc/src/message.rs:145-179 | And a failure exactly when it starts with 2 and the id; exception, arguments, keyword arguments and traceback are read from their places, with the stated defaults, an empty traceback being none. |
| `RpcShapes.PushedIff` | crates/redeluge-rpc/src/message.rs:180-192 | And an event exactly when it starts with 3 and a name. |
| `RpcShapes.NothingIff` | crates/redeluge-rpc/src/message.rs:121-195 | Whatever has none of the three shapes is ignored, and nothing else is. |
| `RpcShapes.ToldWhatItSays` | crates/redeluge-rpc/src/client.rs:307-329 | Over every run: a caller is told, by the first message with its own id heard since its call was written, the result or the failure that message says, field by field. |
| `RpcShapes.WrappedResultIsAnswered` | crates/redeluge-rpc/src/client.rs:307-329 | If that message is a result wrapped in a list of one, as the daemon sends every one, the caller is answered with the result, once. |
| `RpcCalls.CallsArriveAsMade` | crates/redeluge-rpc/src/client.rs:254-278 | Over every run: what was written to the socket is read, by a daemon whose limits the calls keep to, as exactly the requests the callers made, name, arguments and all, in the order they were taken off the channel, with nothing else in between. |
| `RpcCalls.WrittenOnceEach` | crates/redeluge-rpc/src/client.rs:254-278 | And each of them once: the calls written are those that wait or were answered off the socket, without repetition. |
| `RpcTask.Task.OnRequest` | crates/redeluge-rpc/src/client.rs:259-278 | Taking a request off the channel refines the protocol's step: encoded and written it waits under its id, and each failure answers the caller or ends the connection as the code does. |
| `RpcTask.Task.OnRead` | crates/redeluge-rpc/src/client.rs:280-300 | Reading refines the protocol's step: every whole message is routed before broken framing ends the connection. |
| `RpcTask.Task.Route` | crates/redeluge-rpc/src/client.rs:307-329 | Routing one message refines the protocol: a reply leaves the waiting map and is told, an event goes to the subscribers, anything else is ignored. |
| `RpcTask.Task.Drain` | crates/redeluge-rpc/src/client.rs:280-300 | Draining routes exactly the messages of the stream, up to the first fault. |
| `RpcTask.Task.TellAll` | crates/redeluge-rpc/src/client.rs:331-338 | Everyone waiting is told once and the map is left empty, in whatever order the map is walked. |
| `RpcTask.Task.Stop` | crates/redeluge-rpc/src/client.rs:302-305 | Ending the socket's task tells all who wait and closes the channel over those still in it. |
| `Bencode.Decode` | crates/redeluge-web/src/bencode.rs:87-94 | The recursive descent parser answers what the specification does, error for error. |
| `Bencode.DecodeWithSpan` | crates/redeluge-web/src/bencode.rs:99-108 | So it does when asked where a member lay, for the value and for the span. |
| `Bencode.Parser.ReadNoting` | crates/redeluge-web/src/bencode.rs:133-175 | One value read with the shared cursor and depth counter: the value, the offset behind it and the span noted, as specified, and the depth put back. |
| `Bencode.Parser.ReadInteger` | crates/redeluge-web/src/bencode.rs:177-185 | An integer as the source's 64-bit parse reads it, up to the terminator. |
| `Bencode.Parser.ReadBytes` | crates/redeluge-web/src/bencode.rs:187-200 | A string behind its length, which is read without overflow and bounded by the input. |
| `BencodeGrammar.DecodedIff` | crates/redeluge-web/src/bencode.rs:87-94 | The parser's language and its meaning: a file is taken, and for this value, exactly when it starts with a document of the literal grammar (either sign and leading zeros in numerals, leading zeros in lengths, keys that are strings, at most thirty-two deep) that means this value; everything else is refused. |
| `BencodeGrammar.ReadsBack` | crates/redeluge-web/src/bencode.rs:133-200 | One half: every document, wherever in a file it stands, whatever surrounds it and whatever is wanted of it, parses to what it means and ends where it ends, with the span of the member wanted. |
| `BencodeGrammar.ValueIsDoc` | crates/redeluge-web/src/bencode.rs:133-200 | The other half: whatever the parser takes anywhere is such a document. |
| `BencodeGrammar.ByteMeans` | crates/redeluge-web/src/bencode.rs:133-175 | A value that starts with a byte other than a digit, `i`, `l` or `d` is malformed there, and so is nothing else by its first byte; a value too deep or missing is refused as such. |
| `BencodeGrammar.PlainIsTaken` | crates/redeluge-web/src/bencode.rs:177-200 | The integers and lengths BEP 3 writes are among the numerals taken, with their values. |
| `BencodeLaws.Moves` | crates/redeluge-web/src/bencode.rs:133-200 | Locality and depth monotonicity: the bytes of a value, copied anywhere and read at any smaller depth, give the same value of the same length. |
| `BencodeLaws.SpanIsTheMember` | crates/redeluge-web/src/bencode.rs:99-108 | For a dictionary the span is there exactly when the key is, and the bytes it covers decode, on their own and to their last byte, to the value stored, with repeated keys and inner keys of the same name. |
| `BencodeLaws.SpanIsAsWritten` | crates/redeluge-web/src/bencode.rs:99-108 | In any file that starts with a dictionary the span of a member is, to the byte, the document written last under that key, which is what an infohash is taken over; without the key there is none. |
| `BencodeLaws.NotingChangesNothing` | crates/redeluge-web/src/bencode.rs:133-175 | Asking for a span changes neither what is accepted nor what it decodes to. |
| `BencodeLaws.PaddingIsIgnored` | crates/redeluge-web/src/bencode.rs:87-94 | Bytes behind a value are ignored. |
| `TrackerCache.StaleIffPending` | crates/redeluge-daemon/src/manager.rs:153-201 | Over every life of a torrent (added, looked up, replaced, metadata arrived, alert handled, removed, in any order that can happen): the cached URL is not the first of the list exactly while metadata that moved the first tracker has arrived since the list was last fetched, with nothing forgotten since. |
| `TrackerCache.SessionState.TrackerList` | crates/redeluge-daemon/src/manager.rs:153-193 | A lookup for a torrent in the session answers and fills the cache as specified, and names the torrent's current tracker as the session's own list would exactly when the list was asked for, something was announced, or no arrival of metadata is pending in the torrent's life. |
| `TrackerCache.SessionState.ForgetTrackers` | crates/redeluge-daemon/src/manager.rs:199-201 | The torrent's cached URL goes, and no other. |
| `TrackerCache.SessionState.ReplaceTrackers` | crates/redeluge-daemon/src/core.rs:1201-1212 | Replacing a list drops the cached URL whether or not libtorrent refused, so the old first tracker is never read again. |
| `TrackerCache.SessionState.MetadataHandled` | crates/redeluge-daemon/src/manager.rs:963-966 | Handling the metadata alert drops the cached URL: nothing is pending behind it. |
| `TrackerCache.SessionState.Remove` | crates/redeluge-daemon/src/manager.rs:226-240 | A removal takes the torrent from the session and from the cache. |
| `TrackerCache.OnlyListedAreCached` | crates/redeluge-daemon/src/manager.rs:226-240 | Nothing is cached of a torrent libtorrent does not have, so one that is added again starts clean. |
| `TrackerCache.StaleUntilHandled` | crates/redeluge-daemon/src/manager.rs:963-966 | An instance of `StaleIffPending`: between the arrival of metadata and its alert a poll reads the old tracker. |
| `TorrentState.StateSaysWhy` | crates/redeluge-daemon/src/state.rs:82-106 | For each name a torrent's state is shown under, exactly when it is: what failed, moves, was stopped by the queue or by somebody, checks, seeds or downloads. |
| `Status.BuildKeySet` | crates/redeluge-daemon/src/core.rs:3446-3462 | The keys built are those asked for and all the filter reads. |
| `Status.StatusWithPeers` | crates/redeluge-daemon/src/torrent.rs:293-606 | A status built for some keys is the full status restricted to them: no key is built that was not wanted, none that was is missing or different. |
| `Status.Project` | crates/redeluge-daemon/src/core.rs:817-840 | A status is sent whole in key order, or as the named fields in the order named, a repeated name once. |
| `Status.SelectRows` | crates/redeluge-daemon/src/core.rs:3102-3114 | The loop over the rows answers the projections of those the filter takes, in order. |
| `Search.AsksIff` | crates/redeluge-daemon/src/core.rs:3464-3525 | One key of a filter matches a status exactly when what it asks is so, said in the fields of the status and in what occurs in what: `All`, the three questions about a torrent that are no state, the search, the name, and any other key. |
| `Search.AnswerIs` | crates/redeluge-daemon/src/core.rs:3102-3114 | Whatever dictionary of conditions a client sends, the rows answered are exactly those all of whose conditions hold, in order. |
| `Search.SearchAnswer` | crates/redeluge-daemon/src/core.rs:3500-3507 | The quick search lists a row exactly when every term between commas that is not blank, trimmed and lower-cased, occurs in one of the seven fields, or the search is `All`. |
| `Search.NameAnswer` | crates/redeluge-daemon/src/core.rs:3511-3519 | The name filter lists a row exactly when one of the wanted parts occurs in its name. |
| `Search.PlainAnswer` | crates/redeluge-daemon/src/core.rs:3520-3523 | Any other key lists exactly the rows whose value is one of those wanted. |
| `Search.CommaIsAnd` | crates/redeluge-daemon/src/core.rs:3500-3507 | Two searches with a comma between them find exactly what both find, so that a term more never lists more. |
| `Search.NowhereIsNothing` | crates/redeluge-daemon/src/core.rs:3533-3540 | A search with a term that is in no field finds nothing. |
| `Search.SearchFinds` | crates/redeluge-daemon/src/core.rs:3102-3114 | From the key set to the answer: for every library, search and list of columns, the torrents listed are those with every term in one of their seven texts (the name they go by, state, tracker host, tracker, what it said, label, infohash), as long as no stale cached tracker is read. |
| `Search.PickedAreSent` | crates/redeluge-daemon/src/core.rs:817-840 | The fields sent are those asked for that there are, each once, with their values, in the order first asked for. |
| `Status.BuildRows` | crates/redeluge-daemon/src/core.rs:3057-3099 | The walk over libtorrent's statuses: an unknown torrent is skipped, each known one's row is built from the list the cache offers it at that moment, and the cache is filled on the way; the rows are those of the library as the cache stood before the walk. |
| `StatusLaws.SameFilter` | crates/redeluge-daemon/src/core.rs:3464-3525 | A filter reads no more of a status than `keys_for` says it needs. |
| `StatusLaws.RowIsRestrictedIff` | crates/redeluge-daemon/src/core.rs:3057-3099 | When the tracker is asked for, the row built for some keys is the full row restricted to them exactly when the cached tracker is fresh or not read. |
| `StatusLaws.PushdownKeepsAnswer` | crates/redeluge-daemon/src/core.rs:3102-3114 | Filter pushdown: for every library, filter and key list, building only what is needed, filtering and projecting gives the answer that building everything gives, as long as no stale cached tracker is read. |
| `StatusLaws.NothingPendingIsFresh` | crates/redeluge-daemon/src/manager.rs:153-201 | A library in which no arrival of metadata is pending, whatever each torrent's life was, has only fresh caches, which is enough for `PushdownKeepsAnswer`, `CountsAgree` and `CountsAsTheSidebar`. |
| `Sidebar.FilterTreeOf` | crates/redeluge-daemon/src/core.rs:3168-3259 | The one pass over the library shows in every row, of every kind, how many torrents belong in it. |
| `Sidebar.OneAgrees` | crates/redeluge-daemon/src/core.rs:3464-3525 | For one torrent: the filter a row sends takes it exactly when the row counts it, or when the row is called All. |
| `Sidebar.FilterCounts` | crates/redeluge-daemon/src/core.rs:3464-3525 | How many torrents a row's filter takes of a library, counted without the sidebar. |
| `Sidebar.CountsAgree` | crates/redeluge-daemon/src/core.rs:3168-3259 | For every library, row and list of keys the count shown is the length of the list a click fetches, exactly unless the row is called All, which lists the whole library; both read even a stale cached tracker alike unless the client asks for the tracker lists too. |
| `StateFiles.LoadState` | crates/redeluge-daemon/src/manager.rs:320-362 | The file if it can be read, else its backup if that can, else nothing. |
| `StateFiles.StepKeeps` | crates/redeluge-daemon/src/statewriter.rs:81-112 | Every step of the writer, a crash between any two included, keeps the committed body in the file, or in the backup while there is no file. |
| `StateFiles.LastCommittedIsRead` | crates/redeluge-daemon/src/statewriter.rs:81-112 | Over every run of saves, crashes, partial temporaries and restarts, what is loaded is the body of the last save whose final rename happened. |
| `StateFiles.DamageCostsOneSave` | crates/redeluge-daemon/src/manager.rs:320-362 | Over every run in which the backup is kept, crashes among its steps: a file that is damaged afterwards, or gone, loads as the body committed before the last. |
| `StateFiles.StepKeepsBackup` | crates/redeluge-daemon/src/statewriter.rs:102-112 | Every step keeps the backup of a file that is there at the body committed before it. |
| `StateFiles.LastJobWins` | crates/redeluge-daemon/src/statewriter.rs:81-98 | The queue is first in, first out: the last job for a file decides what is left of it. |
| `StateFiles.LeftAlone` | crates/redeluge-daemon/src/statewriter.rs:81-98 | And a file no job is for is left alone. |
| `StateFiles.Writer.Send` | crates/redeluge-daemon/src/statewriter.rs:58-65 | A job goes to the back of the queue and nothing else changes. |
| `StateFiles.Writer.WriteFile` | crates/redeluge-daemon/src/statewriter.rs:102-112 | The write is a run of the state machine's steps. It puts the body in place or, failing anywhere, commits nothing; the backup becomes the old file exactly when one was asked for, there was a file and the rename succeeded, and is as it was otherwise; no other file is touched. |
| `StateFiles.Writer.PutInPlace` | crates/redeluge-daemon/src/statewriter.rs:108-111 | The two renames, file to backup and temporary to file, with what either leaves in both. |
| `StateFiles.Writer.RunOne` | crates/redeluge-daemon/src/statewriter.rs:81-98 | One job taken off the queue has its effect, and a failed write is given up without one. |
| `StateFiles.Writer.RunAll` | crates/redeluge-daemon/src/statewriter.rs:71-98 | What a flush waits for: every queued job has had its effect, in order. |
| `PeerLedger.Ledger.Observe` | crates/redeluge-daemon/src/peers.rs:228-265 | One sample folded in: the whole record is the old one, or a fresh one, with the torrent, its content, a client that was named, the sample and the difference of both counters put in; every other record and every other content stays, and the totals stay what the samples account for. |
| `PeerLedger.Ledger.ForgetConnections` | crates/redeluge-daemon/src/peers.rs:296-300 | Every connection's last sample goes, every total stays. |
| `PeerLedger.Ledger.ForgetOld` | crates/redeluge-daemon/src/peers.rs:269-289 | Exactly the records past their time go, then the longest unseen beyond the capacity; the number dropped is answered and those kept are untouched. |
| `PeerLedger.SortByAge` | crates/redeluge-daemon/src/peers.rs:274-286 | The sort behind the eviction: every address once, the longest unseen first. |
| `PeerLedger.WithoutOldest` | crates/redeluge-daemon/src/peers.rs:274-286 | The surplus dropped is exactly the longest unseen. |
| `PeerLedger.RunEndsSnoc` | crates/redeluge-daemon/src/peers.rs:228-265 | The accounting theorem's step: adding a sample's difference keeps the total equal to the sum, over all torrents, of the last sample of every run not broken by a decrease or by forgetting. |
| `PeerLedgerLaws.OneSampleIff` | crates/redeluge-daemon/src/peers.rs:228-265 | One call claims more than its connection moved since its last sample exactly when that connection was counted before and the ledger's counter is not between its old and its new one, and less exactly when the ledger goes on from another connection's higher counter: both can be told before the call. |
| `PeerLedgerLaws.BooksBalance` | crates/redeluge-daemon/src/peers.rs:404-410 | The books to the byte, for every trace and however connections are interleaved: what is claimed and what is hidden make up what the connections moved and what is counted again. |
| `PeerLedgerLaws.CountedAgainIff` | crates/redeluge-daemon/src/peers.rs:228-300 | Over a trace bytes are counted again exactly if some sample counts again, and hidden exactly if some sample hides. |
| `PeerLedgerLaws.NeverMoreThanMoved` | crates/redeluge-daemon/src/peers.rs:228-300 | A record never claims more than was moved while no sample counts again, and then claims it all exactly when none hides. |
| `PeerLedgerLaws.ClaimsTooMuchIff` | crates/redeluge-daemon/src/peers.rs:228-300 | Where nothing is hidden a record claims more than was moved exactly when some sample counts again. |
| `PeerLedgerLaws.AlwaysExactIff` | crates/redeluge-daemon/src/peers.rs:228-300 | For every trace: the ledger is exact at every moment of it exactly when no sample counts again and none hides. |
| `PeerLedgerLaws.CountsAgainIffCutShort` | crates/redeluge-daemon/src/manager.rs:212-222 | One connection at a time, bytes are counted again exactly when a connection that had moved something is forgotten and then sampled again, as the periodic save does to every connection that goes on. |
| `PeerLedgerLaws.CountsAgainIffTakeTurns` | crates/redeluge-daemon/src/peers.rs:228-265 | With nothing forgotten, bytes are counted again exactly when two connections of one address take turns in one torrent and the one in between does not stand between the other's two counters: samples are keyed by address and torrent alone. |
| `PeerLedger.TotalsOnlyGrow` | crates/redeluge-daemon/src/peers.rs:404-410 | Totals never shrink, whatever is sampled or forgotten. |
| `PeerLedgerLaws.SavingMidwayCountsTwice` | crates/redeluge-daemon/src/manager.rs:212-222 | An instance of `CutShort`, the periodic save in the middle of a connection: 500 bytes moved, 1000 claimed. |
| `PeerLedgerLaws.SharedAddressCountsTwice` | crates/redeluge-daemon/src/peers.rs:228-265 | An instance of `TakeTurns`: two connections of one address moved 1200 bytes, 1400 are claimed. |
| `TrackerInfo.ByDomain` | crates/redeluge-daemon/src/trackerinfo.rs:223-239 | The domains are those some torrent is on, each with the totals of its torrents. |
| `TrackerInfo.Detail` | crates/redeluge-daemon/src/trackerinfo.rs:257-317 | One domain's window: the same totals as in the list of domains, and its tabs. |
| `TrackerInfo.DomainAddsUp` | crates/redeluge-daemon/src/trackerinfo.rs:89-113 | A domain's sizes, transfers, swarm figures and unregistered torrents are the sums over the torrents whose current tracker it is, a swarm not reported counting nothing. |
| `TrackerInfo.DomainIsDueSoonest` | crates/redeluge-daemon/src/trackerinfo.rs:89-113 | Its next announce is the soonest due, none when none is. |
| `TrackerInfo.TabsAddUp` | crates/redeluge-daemon/src/trackerinfo.rs:257-317 | For every library the working, failing and updating counts of a domain's tabs sum to the domain's. |
| `TrackerInfo.ColoursAgree` | crates/redeluge-daemon/src/trackerinfo.rs:162-174 | A domain that is ok has only tabs that are ok or unknown, one that is down none that works, and a tab in trouble means a domain in trouble. |
| `TrackerInfo.FineMeansSomeTabIs` | crates/redeluge-daemon/src/trackerinfo.rs:162-174 | And a domain that is ok has a tab that is. |
| `TrackerFigures.TabsShow` | crates/redeluge-daemon/src/trackerinfo.rs:257-317 | Every figure of every tab, for every library: how often the URL is listed, announced to, works, fails, is being tried and turned its torrents away, what its torrents come to, and the lowest tier it is listed in. |
| `TrackerFigures.ColourIff` | crates/redeluge-daemon/src/trackerinfo.rs:162-174 | The colour of a domain, exactly, from the library: what works and fails among its pairs of torrent and tracker, and whether it turned a torrent away. |
| `TrackerFigures.DomainShowsWorst` | crates/redeluge-daemon/src/trackerinfo.rs:89-151 | A domain shows the worst failure count there is, the first thing said by a tracker that fails, and how many of its torrents are in each state. |
| `TrackerInfo.CountsAsTheSidebar` | crates/redeluge-daemon/src/trackerinfo.rs:223-239 | A domain of the trackers window, which reads the whole lists (core.rs:2861-2893), has as many torrents as the sidebar, which reads the cached ones (core.rs:3023-3054), shows beside the same host: for every library in which no stale cache puts a torrent on another host. |
| `TrackerInfo.OneOffSetsApart` | crates/redeluge-daemon/src/core.rs:2861-2893 | And it needs to be: of a library that is otherwise right, one torrent more keeps all the counts equal exactly when both put it on the same host. |
| `TrackerInfo.CountAlikeIff` | crates/redeluge-daemon/src/trackerinfo.rs:223-239 | Counting the hosts of the two readings alike is the same as every figure of the window's domains agreeing with the sidebar's. |
| `Minify.Minify` | crates/redeluge-web/src/minify.rs:19-121 | The mode machine's one loop strips exactly what the specification drops, and the trimmer does the rest. |
| `Minify.Tidy` | crates/redeluge-web/src/minify.rs:109-120 | Every line trimmed, empty ones gone, each of the others ended by one line break. |
| `MinifyPieces.StrippedIff` | crates/redeluge-web/src/minify.rs:19-152 | What stripping does to any text, in literal bytes: the text is code, comments, strings and regular expressions in a row, cut off at its end perhaps; comments go but for the line breaks of block comments, and all else stays. A slash opens a regular expression behind one of twenty operators or at the start, and divides behind anything else. |
| `MinifyPieces.TidiedIff` | crates/redeluge-web/src/minify.rs:109-120 | What tidying leaves of any text: those of its lines that are not blank, trimmed, each with a line break. |
| `MinifyPieces.TrimmedIff` | crates/redeluge-web/src/minify.rs:113-115 | What is left of a line is all between its first and its last byte that is no white space. |
| `MinifyLaws.StrippedIsClean` | crates/redeluge-web/src/minify.rs:36-107 | Stripping leaves no comment and creates none: the output scans to the tokens of the source, and no deletion makes a comment or a regular expression of what was left. |
| `MinifyLaws.MinifiedIsFaithful` | crates/redeluge-web/src/minify.rs:19-152 | For every source whose literals end on their line: the output holds the same literals and code bytes, with the same nothing, blank or line break between any two of them once comments are erased. |
| `MinifyLaws.MinifiedStaysIff` | crates/redeluge-web/src/minify.rs:19-152 | For every source at all, minifying twice is minifying once exactly when the scanner finds no comment left in the output. |
| `MinifyLaws.MinifiedStays` | crates/redeluge-web/src/minify.rs:19-152 | For every source without vertical tabs whose literals end on their line, minifying what was minified changes nothing. |
| `MinifyLaws.TidiedStays` | crates/redeluge-web/src/minify.rs:109-120 | Nor does trimming what was trimmed, for every text. |
| `MinifyLaws.TidiedIsNoLonger` | crates/redeluge-web/src/minify.rs:109-120 | Trimming adds at most the one line break a text may lack. |
| `MinifyLaws.UnterminatedDoesNotSettle` | crates/redeluge-web/src/minify.rs:90-99 | An instance on the other side: a source with a regular expression cut off behind an escaped blank, of which a second pass takes more away. |
| `MinifyLaws.CommentsKeepNothingApart` | crates/redeluge-web/src/minify.rs:42-51 | A comment is erased, not replaced by a blank: what it alone kept apart is joined. |
| `ConfigFile.SplitJsonObjects` | crates/redeluge-daemon/src/config.rs:244-282 | The loop over characters with its depth, start and string flags gives the specified pieces. |
| `ConfigLaws.LaidIffPieces` | crates/redeluge-daemon/src/config.rs:244-282 | For any text at all, the pieces and no other list lie in it in order and apart, each from an opening brace to the one that closes it, strings aside, with nothing between or behind them that would be one more. |
| `ConfigLaws.ObjectIsFound` | crates/redeluge-daemon/src/config.rs:244-282 | An object behind anything that opens none is found whole, and the search goes on behind it. |
| `ConfigLaws.PrintIsNeutral` | crates/redeluge-daemon/src/config.rs:195-197 | Whatever strings and nesting a value holds, its text closes every brace it opens and ends every string, and an object's text is one whole object. |
| `ConfigLaws.SplitUndoesPrint` | crates/redeluge-daemon/src/config.rs:167-179 | Two objects printed behind one another are split into the two. |
| `Json.PrintReadsBack` | crates/redeluge-daemon/src/config.rs:195-197 | Every value, whatever strings, numbers and nesting it holds, is printed as a text that a reader of RFC 8259 reads as that value. |
| `Json.SavedReadsBack` | crates/redeluge-daemon/src/config.rs:210-238 | What is saved is what is loaded, for every version and all settings. |
| `Json.LoadedIff` | crates/redeluge-daemon/src/config.rs:210-238 | A text loads as these settings exactly when one object lies in it and reads as them, or two do and read as the version and them. |
| `Json.FirstHeader` | crates/redeluge-daemon/src/config.rs:167-171 | A file without a version is given file 1 and format 1. |
| `ConfigFile.Config.Set` | crates/redeluge-daemon/src/config.rs:130-155 | Unknown keys and changed types are refused without effect, null going with anything; a change is made and noted, no change is not. |
| `ConfigFile.Config.Save` | crates/redeluge-daemon/src/config.rs:162-184 | Nothing is written when nothing changed; else both objects are, and the note of the change is cleared exactly when the write succeeds. |
| `Base64.Decode` | crates/redeluge-daemon/src/core.rs:764-791 | The loop with its unmasked 32-bit buffer answers the specified bytes, or nothing exactly when a byte is neither a letter of the alphabet, padding nor white space. |
| `Base64Laws.RefusedIff` | crates/redeluge-daemon/src/core.rs:764-791 | A text is refused exactly when a byte stands in it that is no letter, digit, plus, slash, equals sign or ASCII white space. |
| `Base64.Lookup` | crates/redeluge-daemon/src/core.rs:765-769 | The table holds every letter's value and marks every other byte. |
| `Base64Laws.LettersInOrder` | crates/redeluge-daemon/src/core.rs:765-766 | The alphabet, letter by letter in its order. |
| `Base64.Shifted` | crates/redeluge-daemon/src/core.rs:783-788 | The invariant of the buffer: whatever overflowed, its low bits are the bits not delivered yet. |
| `Base64Laws.RoundTrip` | crates/redeluge-daemon/src/core.rs:764-791 | Decoding inverts section 4 of RFC 4648 for all bytes, with white space and padding anywhere in the text. |
| `Base64Laws.EncodingIffCanonical` | crates/redeluge-daemon/src/core.rs:764-791 | A text that decodes is the encoding of what it decodes to, blanks and padding aside, exactly when its last letter leaves no bit over. |
| `Base64Laws.BitStream` | crates/redeluge-daemon/src/core.rs:783-788 | The bytes are the front of the bit stream the letters spell, and what is left of it is less than a byte. |
| `Pieces.Apply` | crates/redeluge-daemon/src/core.rs:2442-2480 | The loop over the files writes the specified priorities into the array in place, and nothing without a piece length or a piece. |
| `Pieces.ApplyTo` | crates/redeluge-daemon/src/core.rs:2465-2477 | One file: skipped or empty it changes nothing, else its first and last piece. |
| `Pieces.OwnAt` | crates/redeluge-daemon/src/core.rs:2465-2477 | Which file decides a piece: the last in the list with an end there, if any has. |
| `PiecesLaws.ClampsNeverBite` | crates/redeluge-daemon/src/core.rs:2463-2473 | In a valid layout nothing wraps and nothing is clamped: the two pieces are those that hold the file's first and last byte. |
| `PiecesLaws.OnRaisesTheEnds` | crates/redeluge-daemon/src/core.rs:2432-2480 | Turning it on sets to 7 exactly the pieces that hold an end of a file that is neither empty nor skipped, and leaves every other piece alone. |
| `PiecesLaws.OffGivesTheLast` | crates/redeluge-daemon/src/core.rs:2465-2477 | Turning it off gives a piece the priority of the last file with an end in it, 4 if that file has none, and leaves every other piece alone. |
| `PiecesLaws.OnInAnyOrder` | crates/redeluge-daemon/src/core.rs:2465-2477 | The order of the files does not matter. |
| `PiecesLaws.LastSwitchDecides` | crates/redeluge-daemon/src/core.rs:2465-2477 | Doing it twice changes nothing, and of two switches the last decides. |
| `PiecesLaws.OffRestoresIff` | crates/redeluge-daemon/src/core.rs:2465-2477 | Turning it off restores what was there exactly when every piece with an end had the priority of the last file with an end in it. |
| `PiecesLaws.OffInAnyOrderIff` | crates/redeluge-daemon/src/core.rs:2465-2477 | Turning it off comes out the same in every order of the files exactly when any two wanted files with ends in one piece have the same priority. |
| `PiecesLaws.OffDependsOnOrder` | crates/redeluge-daemon/src/core.rs:2465-2477 | An instance: two files of different priority in one piece, and two orders with two outcomes. |

## Left out

- RpcClient.RunsKeepBooks: assumes that at most 2^64 call numbers have been drawn on one connection; beyond that the wrapping counter of the source does reuse ids.
- StatusLaws.PushdownKeepsAnswer: assumes of each torrent that something was announced, that the cached tracker is fresh, that the wanted keys do not read it, or that the lists are asked for; `NothingPendingIsFresh` says when caches are fresh, and `RowIsRestrictedIff` that it fails otherwise.
- Sidebar.CountsAgree: of a client that asks for the tracker lists it assumes that something was announced or the cached tracker is fresh, torrent by torrent; of any other client nothing.
- TrackerInfo.CountsAsTheSidebar: assumes of each torrent that window and sidebar put it on the same host; for a library with more than one that they do not, the counts may still agree by accident, and `OneOffSetsApart` is for the first.
- TrackerCache.SessionState.TrackerList: is for torrents libtorrent has, whose statuses the callers walk; a handle that went away in the middle of a walk is not modelled.
- StateFiles.LastCommittedIsRead: assumes atomic renames that reach the disk in order, that no other file shares the stem, and that no deletion is queued for the file itself; a body that does not parse is loaded from the backup, as the code does.
- MinifyLaws.MinifiedIsFaithful: is for sources without a vertical tab, which the scanner and the trimmer treat differently, and whose literals end on their line.
- MinifyLaws.MinifiedStays: is for the same sources; `MinifiedStaysIff` is for all.
- Minify.Tidy: trims ASCII white space alone; non-ASCII white space and invalid UTF-8, which the source would cut or replace, are not modelled, and bytes above 127 are otherwise ordinary.
- Minify.Minify: see `Minify.Tidy`, which it ends with.
- PeerLedger.Ledger.Observe: the trails of samples and the connection a sample belongs to are ghost state; a record that was evicted and comes back starts a new trail.
- PeerLedgerLaws.CountsAgainIffCutShort: is for connections that follow one another, and `CountsAgainIffTakeTurns` for traces in which nothing is forgotten; for the two together the condition is that of `CountedAgainIff`.
- PeerLedgerLaws.ClaimsTooMuchIff: is for traces in which nothing is hidden; where something is, bytes hidden and bytes counted again may cancel out in the total, and `AlwaysExactIff` and `BooksBalance` are for every trace.
- Json.SavedReadsBack: the reader is one of RFC 8259; the nesting limit of the library that reads the file is not part of this model, and neither is what it does with a key that stands twice in an object, which no printed one has.
- Search.SearchFinds: assumes of each torrent what `PushdownKeepsAnswer` does.
- RpcCalls.CallsArriveAsMade: assumes mutually inverse compression and calls within the daemon's limits; what a failing write left on the wire, with which the connection ends, is not modelled.
- RencodeWire.DecodedIff: which error a refused message gets is stated by the methods' contracts and `CodeMeans` alone.
- BencodeGrammar.DecodedIff: is for files below 2^64 bytes.
- StateFiles.DamageCostsOneSave: assumes that every write of the file asks for its backup, as the torrent list's does, and that the rename to it succeeds, of which the source ignores the failure.
- ConfigFile.Config.Set: numbers are compared as the text they print as.
- Pieces.Apply: 64-bit sums wrap around, as in a release build; a session call that fails leaves the pieces as they are and is not modelled.
- RencodeDecode.FromSlice: errors carry the same data as the source's, without their texts.
- RpcMessage.FromValue: malformed messages carry no reason, as `route` only logs it.
- Status.StatusWithPeers: the status keys that depend neither on the tracker list nor on what is wanted, and that no filter reads by name, are one map passed in; the tracker rules' countdowns are one function of torrent, status and host.
- Status.BuildRows: an infohash is taken to occur once in a walk, as it does in libtorrent's answer; the torrents' own records are not changed.
- TrackerInfo.Detail: tabs are a map by announce URL; their order in the answer and the order of states are not modelled.
- TLS, sockets, the login handshake, call time-outs (a caller that stops listening changes nothing for the socket's side) and the channel's capacity.
- `core.conf`, `web.conf` and `auth` under crashes: they are replaced in the same steps but read without the backup.
- `<id>.torrent` files, which are written past the queue that deletes them.
- libtorrent, GeoIP, scrypt, HTTP, the ExtJS front end and the option-copying RPC methods.
- Small bounded stores (activity log, event queue), whose invariants are easy.
