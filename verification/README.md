# AladdinAI: a verified model of its stateful core

Dafny models of the parts of AladdinAI in which state or arithmetic has to be right over whole runs, with proofs
of what those parts promise. `dafny verify dfyconfig.toml` checks everything.

| Component | Modules | Form |
|---|---|---|
| Terminal daemon: frame encoder, line framer, payload decoder; its two clients | `Bytes`, `PtyEscaping`, `PtyEncoder`, `PtyPayload`, `PtyRelay`, `PtyClient`, `PtyReader`, `PtyResize` | arrays, loops, a `Relay` class; each method is proved against a function on byte sequences |
| Golden-set datasets | `GoldenStaging`, `GoldenVersions`, `GoldenHarness`, `Rounding` | loops for staging, scoring and export; a step system for any number of interleaved freezers and readers |
| File workspace | `MediaStorage`, `FileHistory`, `FolderForest`, `Workspace` | a step system for racing writers of the files behind one id; a `Store` class for spaces, members, folders and places of files |
| Agent tool loop and MCP names | `AgentLoop`, `McpDispatch` | the loop as methods against an arbitrary environment; a `Registry` class |
| Refresh tokens, order book | `RefreshTokens`, `OrderBook` | request steps and a `TokenTable` class; a `Book` class |

`Options`, `Sets` and `Texts` hold small shared definitions; `MediaStorage` is the storage the workspace writes to.

How the models are set up:

- **Terminal.** Bytes are numbers below 256, C strings end at the first NUL, buffers are arrays with the sizes of
  the source. JSON string bodies are sequences of tokens with a printing function and, independently of the
  daemon's code, their meaning under section 7 of RFC 8259. The kernel's choice of read sizes is a parameter.
- **Datasets.** One database call is one step, so that other requests can fall between any two of them; status
  updates are atomic; `insert_many` stores one document at a time and may raise anywhere. Scores are whole
  ten-thousandths, SHA-256 and the models' replies are parameters.
- **Workspace.** A version commit is one transaction that fails on the unique index; the row update writes only
  columns that differ from what the writer loaded. At any moment users may change their storage backend, delete
  the file or its space, and a database that uses row ids again may give the id of a file that is gone to a new
  one. Folder and member requests are served one at a time.
- **Agent loop, MCP servers.** The model, the tools and the safety gates are arbitrary functions of the call
  number or text. Creating and renaming servers are served one at a time: no unique index stands behind
  `_ensure_slug_free`, so two concurrent requests could both pass it. The gates answer; they do not raise.
- **Tokens, orders.** Requests are served one at a time; a refresh may stop between its two commits. Prices are
  exact reals, amounts whole cents, rounding is half to even.

## What turned out not to hold as promised

Items 1 to 10 each have an exact condition or a concrete witness in the model, named there. Items 11 and 12 are
differences between the code and its own limits or guide, which the model's answers follow.

1. *Encoder.* A 4096-byte read does not always fit the 16384-byte frame buffer, and what does not fit is dropped
   (`PtyEncoder.FullReadCanBeTruncated`). The wire is the identity if and only if every read meets
   `PtyEncoder.Fits`: the frame without its last source byte stays below the limit. Every read whose prefix and
   escapes come to at most 16354 bytes does (`PtyEncoder.WithinLimitFits`), and so does every read of at most 2722
   bytes.
2. *Typing.* The daemon copies a `\uXXXX` escape of 0x80 or more as the characters `uXXXX`. Its own frames never
   contain one, but `json.dumps` in `c_native.py:69` sends every non-ASCII character that way; an empty piece of
   text arrives as the whole JSON line, and a line of 16383 bytes or more ends the connection. So what is typed
   arrives, piece by piece, if and only if every piece is ASCII, not empty and short enough for its line to fit
   (`PtyClient.TypeAll`, for every list of Python strs and all read sizes). Pasting 20000 letters types nothing
   (`PtyClient.LongPasteDoesNotFit`).
3. *Output.* The Python client decodes each frame on its own, so a character whose bytes fall into two PTY reads
   is lost. Printed text arrives if and only if every read fits its frame and ends at the end of a character
   (`PtyReader.TextArrivesIff`); a euro sign split in two becomes three replacement characters
   (`PtyReader.EuroSignIsLost`).
4. *Order history.* The timeline names an order only by its id in the metadata of an entry, and anybody may post
   any entry to their own timeline (`crm_activities.py:53-60`). The entries an order's own changes wrote are always
   a path of at most three changes from pending to its status; the whole history is one if and only if it holds no
   other entry (`OrderBook.Book.HistoryOfOrder`). Two runs of the endpoints end in a history that is no path: an
   order under the id of a deleted one, which SQLite, the default database, may give out again
   (`OrderBook.ReuseId`), and any number of posted entries about an order that never moved (`OrderBook.PostForged`).
5. *Traces.* A turn records no trace when something other than an `LLMError` escapes from the model call or a
   tool; otherwise it records exactly one (`AgentLoop.RunAgent`). That takes gates that do not raise: a database
   failure in the provider query of a gate (`safety.py:201`) escapes as well.
6. *Splits.* Two versions with equal ratios may put the same group in different splits; `GoldenStaging.VersionsAgreeIff`
   says exactly when, and `GoldenStaging.SessionTwoMoves` gives two trace lists that disagree. Ratios
   are validated only when there is a trace to assign.
7. *Sessions.* Logging out with an earlier token of a chain leaves the chain alive, and presenting a used token
   again does not end it (`RefreshTokens.LogoutKillsIffLast`, `RefreshTokens.ReuseIsRefused`).
8. *Readable forever.* `docs/guides/FILE_WORKSPACE.md:61-62` says old bytes stay readable at their version number
   forever, and `file_version.py:4-7` that version rows are never deleted. Versions can be read if and only if the
   file's space still exists, the file is not deleted and the uploader currently uses the backend the bytes were
   stored on, for MongoDB the same cluster (`FileHistory.VersionsStayReadable`). Deleting the file, deleting its
   space or changing that setting loses them (`FileHistory.VersionOneCanBeLost`), the first two for good
   (`FileHistory.DeletedForGood`); with the space the rows themselves go (`FileHistory.HistoryOnlyGrows`).
9. *Late writers.* If the space of a file is deleted while an upload or restore is at work on it, and the database
   gives the file's id to a new file, as SQLite may, the late commit can land there: the new file then has a
   version its owner never wrote, and its numbers may have a gap (`FileHistory.LateWriterHitsNewFile`). Without
   such a commit every run keeps the history consistent, and on a database that never uses an id again there is
   none (`FileHistory.HistoryIsConsistent`, `FileHistory.UndisturbedWithoutReuse`).
10. *Reported version.* An export or evaluation that finds no ready version reports none, but `get_golden_set` then
    resolves again; a version that becomes ready in between is handed out unreported
    (`GoldenVersions.ReportedIsUsedIff`, `GoldenVersions.LateVersionIsMisreported`).
11. *Limits.* The workspace accepts 50 MB, GridFS 20 MB; an upload in between by a user on MongoDB ends in an
    unhandled error (`workspace.py:80-82`, `media_mongo.py:38`; the answers of `Workspace.Store.UploadFile`). An
    order that names a deal or an agent that does not exist fails only at the commit (the answers of
    `OrderBook.Book.CreateOrder`).
12. *Workspace guide.* `docs/guides/FILE_WORKSPACE.md:66-68` says an editor can restore a deleted file, and line 85
    that a restore writes `version_added`. The code has no undelete, and a restore writes `restored` only. The model
    follows the code. `update_folder` reads an omitted parent as "keep", so a folder cannot move back to the root.

## Model

| member | source | states |
|---|---|---|
| PtyRelay.WireIdentityIff | backend/native/aladdin_term.c:48-172 | For every list of non-empty PTY reads: encode each, deliver the frames, decode; what is written to the other PTY is the concatenation of the reads if and only if every read fits the frame buffer |
| PtyRelay.Transfer | backend/native/aladdin_term.c:259-302 | Two relays end to end: whatever the read sizes, given enough reads, the receiver writes one block per block read, its encoded part, and so exactly the blocks if they all fit |
| PtyRelay.SendAll | backend/native/aladdin_term.c:264-274 | Reading its PTY block by block a relay sends exactly the frames of the blocks |
| PtyRelay.WireDelivery | backend/native/aladdin_term.c:264-301 | For every list of non-empty reads the frames never fill the receiving buffer, leave nothing behind, and arrive as exactly one write per read with exactly the bytes the encoder took; none is read as a resize or copied raw |
| PtyRelay.Relay.ServeClient | backend/native/aladdin_term.c:259-302 | A connection with any read sizes of at least 1: the effects on the PTY are those of the payloads of the consumed stream, the buffer holds its unfinished line, and, given enough reads, the whole stream is consumed if and only if no unfinished line fills the buffer |
| PtyRelay.Relay.OnClientReadable | backend/native/aladdin_term.c:275-302 | One read: the effects and the new buffer contents are those of cutting (old buffer contents + bytes read) into payloads |
| PtyRelay.Relay.ProcessLines | backend/native/aladdin_term.c:285-294 | The strchr loop over the buffer processes exactly the payloads of its contents, in order, and stops at the start of the unfinished line |
| PtyRelay.Relay.Compact | backend/native/aladdin_term.c:296-301 | After the memmove the buffer holds exactly the unfinished line |
| PtyRelay.Relay.OnPtyReadable | backend/native/aladdin_term.c:264-274 | One PTY read is sent as one frame of exactly the bytes the encoder takes; end of input stops the relay |
| PtyRelay.CutAnywhere | backend/native/aladdin_term.c:285-301 | For every byte stream cut at any point: cutting the first part and then (what it left + the second part) gives the same payloads and the same rest as cutting the whole |
| PtyRelay.PayloadsAreTheLines | backend/native/aladdin_term.c:285-301 | On a NUL-free stream the payloads are exactly its non-empty lines in order, and the rest is the text after the last newline |
| PtyRelay.EveryStreamIsLines | backend/native/aladdin_term.c:285-301 | Every NUL-free stream has the form the previous lemma speaks of |
| PtyRelay.LinesFitIff | backend/native/aladdin_term.c:277-283 | A stream of complete lines never fills a buffer if and only if every line is shorter than it |
| PtyEncoder.JsonEscapePtyData | backend/native/aladdin_term.c:48-88 | For every source and every dst_max of at least 30: the buffer holds the frame of exactly the taken prefix with a NUL behind it, shorter than dst_max, and no byte from dst_max on changes |
| PtyEncoder.EscapeAll | backend/native/aladdin_term.c:54-84 | The loop writes prefix and escapes of exactly the taken bytes, leaves room for the closing bytes and stays inside dst_max |
| PtyEncoder.EscapeOne | backend/native/aladdin_term.c:55-83 | The branch for one byte writes exactly the token chosen for it and nothing before it |
| PtyEncoder.TakesAllIffFits | backend/native/aladdin_term.c:54 | The encoder takes the whole source if and only if it fits; otherwise it stops at the first position where the output has reached dst_max - 30 |
| PtyEncoder.WithinLimitFits | backend/native/aladdin_term.c:54 | A source whose prefix and escapes come to at most dst_max - 30 fits |
| PtyEncoder.TakenFits | backend/native/aladdin_term.c:54 | What is taken always fits, so its frame is a complete encoding of a prefix |
| PtyEncoder.FrameLength | backend/native/aladdin_term.c:54-87 | A fitting frame has at most dst_max - 22 bytes |
| PtyEncoder.FullReadCanBeTruncated | backend/native/aladdin_term.c:266-273 | A full read of 4096 NUL bytes is truncated by the 16384-byte buffer |
| PtyEncoder.ShortReadFits | backend/native/aladdin_term.c:266-273 | A read of at most 2722 bytes never is |
| PtyEscaping.EscapeMeansSource | backend/native/aladdin_term.c:55-83 | Read by RFC 8259 section 7, the escapes of any byte sequence mean that byte sequence |
| PtyEscaping.PrintedBytes | backend/native/aladdin_term.c:55-83 | A printed body has no control byte, every quote in it follows a backslash, and it is at most six times as long as its tokens |
| PtyEscaping.UnescapeBody | backend/native/aladdin_term.c:135-159 | The unescape loop reads any valid body token by token, wherever it stands in the line |
| PtyEscaping.DaemonAgainstStandard | backend/native/aladdin_term.c:135-159 | Without wide escapes the daemon's reading is the standard's; with one it is strictly longer |
| PtyEscaping.UnescapeMeetsRfc8259Iff | backend/native/aladdin_term.c:135-159 | The loop agrees with RFC 8259 on a valid body if and only if the body has no \uXXXX of 0x80 or more |
| PtyEscaping.ScanFourDigits | backend/native/aladdin_term.c:145-152 | sscanf with %4x reads four hexadecimal digits as their value, whatever follows |
| PtyEscaping.AccentedLetterIsGarbled | backend/native/aladdin_term.c:145-152 | A concrete body on which the loop and RFC 8259 differ |
| PtyPayload.NoResizeMarker | backend/native/aladdin_term.c:92-93 | No body whatsoever makes a data line look like a resize |
| PtyPayload.ValueFound | backend/native/aladdin_term.c:117-131 | In both layouts of data lines the chain of searches ends right behind the opening quote of the value |
| PtyPayload.DataLine | backend/native/aladdin_term.c:90-172 | A data line with a non-empty body is written as the daemon's reading of that body |
| PtyPayload.DataLineDeliveredIff | backend/native/aladdin_term.c:90-172 | It is written as RFC 8259 reads it if and only if no escape is wide |
| PtyPayload.FrameIsOneLine | backend/native/aladdin_term.c:52-86 | A frame is one line: no newline but the last byte, and no NUL |
| PtyPayload.FrameRoundTrip | backend/native/aladdin_term.c:48-172 | Decoding a frame gives back its source, for every non-empty source; the empty frame comes back as its own text |
| PtyPayload.EmptyFrame | backend/native/aladdin_term.c:132-171 | An empty value falls through to the raw copy of the whole line |
| PtyPayload.RawCopy | backend/native/aladdin_term.c:114-171 | A payload with neither marker is copied as it is |
| PtyPayload.Unescape | backend/native/aladdin_term.c:134-159 | The loop fills the allocated buffer with exactly the unescaped value and never overruns it |
| PtyPayload.UnescapeOne | backend/native/aladdin_term.c:138-158 | The branches of one turn produce the byte and the next position of the specification |
| PtyPayload.FindValue | backend/native/aladdin_term.c:114-131 | The nested searches find the start of the value, or nothing as soon as one of them fails |
| PtyResize.ResizeSetsSize | backend/app/services/terminal_backends/c_native.py:73-77 | For all C ints: the client's resize line sets exactly the size it names, cut to 16 bits, if both numbers are positive, and otherwise does nothing |
| PtyResize.ResizeReads | backend/native/aladdin_term.c:92-112 | In any layout: a message with the marker sets the size its two fields name |
| PtyResize.ResizeDefaults | backend/native/aladdin_term.c:96-111 | Without either field it sets 80 by 24 |
| PtyResize.ResizeArrives | backend/native/aladdin_term.c:92-112 | Sent as a line over the wire it arrives as that one payload with that one effect |
| PtyResize.AtoiReads | backend/native/aladdin_term.c:103-104 | atoi reads a printed number, negative or not, as that number, whatever follows that is no digit |
| PtyPayload.ParseAndProcessPayload | backend/native/aladdin_term.c:90-172 | The effect on the PTY is exactly that of the payload under the specification, including the raw fallback |
| PtyClient.DumpMeansTextIff | backend/app/services/terminal_backends/c_native.py:67-71 | For every Python str: json.dumps means its UTF-8 under RFC 8259, surrogate pairs past 0xFFFF included, if and only if no high surrogate stands directly before a low one |
| PtyClient.DaemonAgainstText | backend/native/aladdin_term.c:135-159 | For every Python str: the daemon's reading of its escapes is its UTF-8 if and only if it is ASCII; otherwise it is longer |
| PtyClient.KeystrokesDecodedIff | backend/native/aladdin_term.c:116-171 | For every text whose line reaches the decoder: it writes the UTF-8 bytes if and only if the text is ASCII and not empty; otherwise it writes strictly more bytes |
| PtyClient.TypeAll | backend/app/services/terminal_backends/c_native.py:67-71 | A whole connection over the relay, for every list of texts and all read sizes, given enough reads: each text is written as its UTF-8, one write each, if and only if each is ASCII, not empty and has a line shorter than 16383 bytes |
| PtyClient.LongPasteDoesNotFit | backend/native/aladdin_term.c:277-281 | A text of 20000 letters is ASCII and does not fit |
| PtyReader.DecodeApartIff | backend/app/services/terminal_backends/c_native.py:53 | For any two byte strings: decoding them apart, with replacement, gives what decoding them together gives if and only if no character is cut; otherwise it gives more characters |
| PtyReader.DecodeEachIff | backend/app/services/terminal_backends/c_native.py:50-53 | The same for any number of pieces |
| PtyReader.DecodeOfText | backend/app/services/terminal_backends/c_native.py:53 | The decoder reads the UTF-8 of any text without surrogates as that text |
| PtyReader.TextOfDecoded | backend/app/services/terminal_backends/c_native.py:53 | Bytes that decode without a replacement character are the UTF-8 of what they decode to |
| PtyReader.UnitIsMaximalSubpart | backend/app/services/terminal_backends/c_native.py:53 | The decoder takes a whole character, or replaces the longest piece a character could begin with, or one byte (section 3.9 of the Unicode Standard) |
| PtyReader.LoadOfEscaped | backend/app/services/terminal_backends/c_native.py:57 | Decoding the escaped body of any bytes and loading the JSON string gives what decoding the bytes would have given |
| PtyReader.FrameIsRead | backend/app/services/terminal_backends/c_native.py:48-65 | The client reads a frame of the daemon as its source, decoded on its own |
| PtyReader.PumpOutput | backend/app/routers/terminal_ws.py:44-49 | Over a whole connection the client hears, in order, exactly what the encoded part of each PTY read decodes to |
| PtyReader.OutputReadIff | backend/app/services/terminal_backends/c_native.py:48-65 | For any PTY bytes in reads that fit their frames: what is heard is the decoding of all of them if and only if no read ends inside a character; each cut makes it longer |
| PtyReader.TextArrivesIff | backend/app/services/terminal_backends/c_native.py:48-65 | A printed text without surrogates or replacement characters arrives, whatever the reads, if and only if every read fits its frame and ends at the end of a character |
| PtyReader.EuroSignIsLost | backend/app/services/terminal_backends/c_native.py:53 | A euro sign in two reads becomes three replacement characters |
| GoldenVersions.StepKeepsInv | backend/app/services/forging.py:237-363 | Every step of any freezer or reader keeps the protocol's invariant |
| GoldenVersions.RunKeepsInv | backend/app/services/forging.py:237-363 | So does every run of any number of interleaved freezers and readers |
| GoldenVersions.VersionsAreGapFree | backend/app/services/forging.py:226-257 | In every reachable state the versions present are exactly 1..n, each once, in order of insertion, whatever their status |
| GoldenVersions.CandidateCountsRows | backend/app/services/forging.py:241-243 | Every candidate is one more than the rows present at its read, and larger than every earlier candidate of that freezer |
| GoldenVersions.GivingUpNeedsCompetition | backend/app/services/forging.py:240-257 | A freezer gives up only after five strictly increasing candidates, with at least five rows of others inserted since its first read |
| GoldenVersions.ReadyIsComplete | backend/app/services/forging.py:342-355 | A ready version holds exactly the examples its freezer staged, in order |
| GoldenVersions.DoneIsComplete | backend/app/services/forging.py:342-355 | A freezer that returned has made a ready version of exactly its examples |
| GoldenVersions.ReadyIsFrozen | backend/app/services/forging.py:342-362 | From then on its status and its examples never change, in any run |
| GoldenVersions.RaisedIsNeverReady | backend/app/services/forging.py:354-363 | All or nothing: once a freezer raises or its process stops while it stores examples, no run makes its version ready |
| GoldenVersions.FailureIsMarked | backend/app/services/forging.py:356-363 | The except branch marks exactly the freezer's own row as failed |
| GoldenVersions.DefaultReadsAreComplete | backend/app/services/forging.py:379-404 | A reader that names no version gets, newest first, the newest examples (at most the limit) of the asked split out of all that a ready version was staged with, each at its place there, however freezers move between its two queries; without a ready version it gets nothing |
| GoldenVersions.FetchAnswersRequest | backend/app/services/forging.py:392-404 | The split and the limit are those of the request, and the version is the one resolved |
| GoldenVersions.ResolvesToNewest | backend/app/services/forging.py:188-203 | Reporting and resolving find the greatest ready version, and none exactly when none is ready |
| GoldenVersions.DefaultReadsAreMonotone | backend/app/services/forging.py:188-203 | Successive default reads resolve to non-decreasing versions and never lose one |
| GoldenVersions.ReportedIsUsedIff | backend/app/services/forging.py:524-525 | When get_golden_set resolves for an evaluation or export it uses the reported version if and only if there is one or no version is ready at that moment |
| GoldenVersions.ReportedIsEvaluated | backend/app/services/forging.py:441-442 | A reported version is the one handed out: the newest examples of the asked split out of all its freezer staged |
| GoldenVersions.LateVersionIsMisreported | backend/app/services/forging.py:524-525 | A run in which none is reported and version 1 is handed out |
| GoldenVersions.InitHolds | backend/app/services/forging.py:226-257 | The empty collections satisfy the invariant |
| GoldenVersions.MaxOfNumbered | backend/app/services/forging.py:241-243 | On numbered rows the newest version is the number of rows, and exactly those numbers are taken |
| GoldenVersions.LatestReady | backend/app/services/forging.py:188-194 | The version found is ready and no ready version is later |
| GoldenStaging.FrozenHasNoSplitLeak | backend/app/services/forging.py:281-326 | Within a frozen version all examples of a group share one split, fallback or not |
| GoldenStaging.SessionsStayTogether | backend/app/services/forging.py:60-69 | Two traces of one session are never in different splits |
| GoldenStaging.FrozenPairs | backend/app/services/forging.py:291-313 | Each example stands for its trace; it is unpaired, cross-session or paired exactly when the rejected traces of the same question say so, and a paired text is that of the first one in the same session; the question is the input text, or the older input field if that is missing or empty |
| GoldenStaging.SameGroupIff | backend/app/services/forging.py:60-69 | Two traces are in one group if and only if they are of one session, or both of none with questions of one digest |
| GoldenStaging.FrozenSplitSizes | backend/app/services/forging.py:315-326 | A non-empty version has at least five examples in every split or everything in train; an example is where its group hashes to, unless some split got fewer than five that way, and then in train |
| GoldenStaging.FallsBackIff | backend/app/services/forging.py:319-326 | A freeze falls back if and only if it has traces and fewer than five of them hash into some split |
| GoldenStaging.VersionsAgreeIff | backend/app/services/forging.py:73-98 | Two versions with equal ratios put a shared group in the same split if and only if both or neither have a split that fewer than five traces hash into, or the group hashes into train |
| GoldenStaging.SessionTwoMoves | backend/app/services/forging.py:319-326 | Two concrete trace lists, default ratios, that put one session in validation and in train |
| GoldenStaging.ZeroRatioGetsNothing | backend/app/services/forging.py:73-98 | A split with ratio zero gets no group, heldout only if the other ratios sum to exactly one |
| GoldenStaging.AssignSplit | backend/app/services/forging.py:73-98 | Refuses exactly ratios with other keys, a negative one, or a sum off one by more than 0.000001; otherwise assigns by the two thresholds |
| GoldenStaging.PairTrace | backend/app/services/forging.py:291-311 | The candidate filter and first match agree with the pairing specification for every ratio and hash |
| GoldenStaging.StageTraces | backend/app/services/forging.py:281-326 | Fails exactly on invalid ratios with a trace to assign; otherwise the staged items are the frozen set, the counts are theirs, and it warns if and only if fewer than five traces hash into some split |
| GoldenStaging.CountsSum | backend/app/services/forging.py:315-317 | The three counts sum to the number of examples |
| GoldenStaging.CountIsSize | backend/app/services/forging.py:315-317 | Each count is the number of examples placed in that split |
| GoldenHarness.ScoreIsSymmetricFraction | backend/app/services/forging.py:103-117 | Every score lies in [0, 1] and is symmetric |
| GoldenHarness.ScoreExtremes | backend/app/services/forging.py:108-117 | Equal token sets score one, two sets without a common token score zero unless both are empty |
| GoldenHarness.ScoreIsNearest | backend/app/services/forging.py:103-117 | The score is the number of ten-thousandths nearest to common over all tokens, the even one of two |
| GoldenHarness.ScoreKeepsOrder | backend/app/services/forging.py:115-117 | Rounding keeps the order of the exact overlap ratios |
| GoldenHarness.TokensAreWords | backend/app/services/forging.py:49-104 | The tokens are exactly the words of ASCII letters and digits, in lower case, except the stop words |
| GoldenHarness.WordsAreRuns | backend/app/services/forging.py:49 | findall yields exactly the maximal runs of word characters |
| GoldenHarness.TokensAcrossSeparator | backend/app/services/forging.py:49-55 | The tokens of two texts joined by a non-word character are exactly the tokens of both |
| GoldenHarness.ScoreIgnoresPartOrder | backend/app/services/forging.py:103-117 | A score does not depend on the order of a reply's parts or on their separators |
| GoldenHarness.DeltaIsMeanDelta | backend/app/services/forging.py:556-567 | The difference of the rounded means is within one ten-thousandth of the exact mean of the row deltas, for any number of examples |
| GoldenHarness.MeanIsClose | backend/app/services/forging.py:557-558 | A rounded mean is within half a ten-thousandth of the exact one |
| GoldenHarness.SumIsRunningTotal | backend/app/services/forging.py:557-558 | The sum is the last of the running totals |
| GoldenHarness.RunHarness | backend/app/services/forging.py:510-569 | One row per example with its own two scores and their difference; each mean within half a ten-thousandth of the exact one and in [0, 1], and the reported delta within 0.0001 of the mean row delta; an empty set reports zeros |
| GoldenHarness.ExportDpo | backend/app/services/forging.py:449-467 | The exported rows are, in order, those of exactly the paired examples with a rejected text; every other example is counted as skipped, under cross-session exactly if it is one |
| GoldenHarness.DpoRowsAre | backend/app/services/forging.py:449-460 | A row holds the question of its example, the answer it teaches, and its rejected text |
| GoldenHarness.ExportedPairsShareSession | backend/app/services/forging.py:449-460 | Every exported pair contrasts two answers to one input in one session |
| FileHistory.StepKeepsInv | backend/app/routers/workspace.py:722-868 | Every step, also deleting the space and giving the id to a new file, keeps the invariant, unless it is a commit on another file than the one its writer loaded |
| FileHistory.CommitKeepsInvIff | backend/app/routers/workspace.py:795-811 | A commit that goes through keeps the invariant if and only if it adds the next number, leaves its size in the file row and logs it truthfully |
| FileHistory.RunKeepsInv | backend/app/routers/workspace.py:722-868 | So does every interleaving of uploads, restores, deletions of the file and of its space, new files under the id and changes of storage settings, without such a commit |
| FileHistory.UndisturbedWithoutReuse | backend/app/models/workspace_file.py:26 | On a database that never gives an id out again no run has such a commit |
| FileHistory.LateWriterHitsNewFile | backend/app/routers/workspace.py:722-811 | A run that has one: a version staged for a file whose space is deleted lands on the new file under its id, which then has versions 1 and 3 |
| FileHistory.CreatedHolds | backend/app/routers/workspace.py:497-530 | A new file satisfies the invariant |
| FileHistory.ConflictIffModified | backend/app/services/file_workspace.py:115-126 | A commit gets the conflict if and only if the file is gone or has a later version than its writer loaded; on the file it loaded: if and only if another version was committed since |
| FileHistory.LoserChangesNothing | backend/app/services/file_workspace.py:119-126 | A losing writer changes nothing but its own answer |
| FileHistory.WinnerBecomesCurrent | backend/app/routers/workspace.py:795-811 | A version committed on the file its writer loaded is appended, becomes current and sets the file's size, with its event |
| FileHistory.LoadsLastVersion | backend/app/services/file_workspace.py:60-69 | A request is refused if and only if the file or its space is deleted; otherwise it loads the last version's number and size |
| FileHistory.RestoreStagesAsked | backend/app/routers/workspace.py:841-868 | A restore stages reference, size and uploader of the version whose number it was asked for, as the next version with an event that names both, and is refused if and only if there is no such version |
| FileHistory.RestoredReadsAsAsked | backend/app/routers/workspace.py:841-868 | Over whole runs: once a restore has committed on the file it loaded, its new version reads in every later state as the version it was asked for does |
| FileHistory.UploadStages | backend/app/routers/workspace.py:722-795 | An upload is refused above 50 MB, fails above 20 MB to be stored on MongoDB, and otherwise stages exactly the bytes it stored, for its user and on the backend of that user |
| FileHistory.UploadReadsBack | backend/app/routers/workspace.py:722-811 | Over whole runs: once an upload has committed on the file it loaded, its version reads in every later state as the bytes it stored, unless the file or its space is deleted or its user has left the backend |
| FileHistory.FirstIsRestored | backend/app/routers/workspace.py:841-868 | A run in which that happens |
| FileHistory.HistoryIsConsistent | backend/app/models/file_version.py:33-35 | For any interleaving without a commit on another file than loaded: committed numbers are exactly 1..current, the file's size is its current version's, and the k-th version event is for version k, one per row; once the space is deleted there are neither |
| FileHistory.HistoryOnlyGrows | backend/app/models/file_version.py:38-40 | In every run: as long as the file's space exists no committed version row or event changes or disappears; when it is deleted they all go; no stored blob ever changes |
| FileHistory.VersionsStayReadable | backend/app/routers/workspace.py:615-631 | In every run: a committed version can be read at its number if and only if the file's space still exists, the file is not deleted and its uploader uses the backend the bytes were stored on; what is read are those bytes, of the recorded size |
| FileHistory.DeletedForGood | backend/app/services/file_workspace.py:66-67 | Once a file or its space is deleted no version of it is ever read again, in any run |
| FileHistory.VersionOneCanBeLost | backend/app/routers/workspace.py:157-168 | A new file's version 1 reads as uploaded; deleting the file, deleting its space or switching the uploader's backend loses it; switching back returns it |
| FileHistory.RestoreReadsSource | backend/app/routers/workspace.py:841-868 | A restored version reads as the earlier version its event names: the same bytes, or neither can be read |
| FileHistory.ContentHasUpload | backend/app/routers/workspace.py:851-868 | Every version's content, size and reader are those of an original upload, through any chain of restores |
| FolderForest.NoCycleIffRanked | backend/app/routers/workspace.py:356-361 | Having no cycle is the same as having a rank that falls along every parent link, which is why the walk ends |
| FolderForest.MoveKeepsForestIff | backend/app/routers/workspace.py:351-366 | Moving a folder under an existing one of its space keeps the forest if and only if the target is not the folder or a descendant |
| FolderForest.CreateKeepsForest | backend/app/routers/workspace.py:309-315 | A folder created at the root or under a folder of its space keeps the forest |
| FolderForest.DeleteKeepsForest | backend/app/models/folder.py:28-30 | Deleting a folder keeps the forest, re-roots exactly its children and leaves every other folder alone |
| FolderForest.DropSpaceKeepsForest | backend/app/models/folder.py:25-27 | Deleting a space takes exactly its folders and leaves a forest |
| FolderForest.AncestorsShareSpace | backend/app/models/folder.py:6-8 | Every ancestor of a folder lies in its space |
| Workspace.Store.ReachesUpwards | backend/app/routers/workspace.py:356-361 | The cursor walk ends, and finds the folder if and only if the target is the folder or one of its descendants |
| Workspace.Store.UpdateFolder | backend/app/routers/workspace.py:340-369 | The exact answer for every request, 403 exactly for who is no member or a viewer, and the exact new folder; among existing same-space targets it refuses exactly the folder and its descendants; a refusal changes nothing |
| Workspace.UpdateKeepsForest | backend/app/routers/workspace.py:363-366 | Rename and move together keep the forest |
| Workspace.Store.CreateFolder | backend/app/routers/workspace.py:302-317 | The exact answer, 403 exactly for who is no member or a viewer, and exactly one new folder on success; a refusal changes nothing |
| Workspace.Store.DeleteFolder | backend/app/routers/workspace.py:372-385 | The exact answer, 403 exactly for who is no member or a viewer; children re-rooted, files of the folder back at the space root, nothing else changed; a refusal changes nothing |
| Workspace.DeleteKeepsPlaces | backend/app/routers/workspace.py:381-383 | After a folder is deleted every file still lies in an existing folder of its space or at the root |
| Workspace.Store.MoveFile | backend/app/routers/workspace.py:874-891 | The exact answer, 403 exactly for who is no member or a viewer, and exactly that file's folder changed on success |
| Workspace.Store.DeleteFile | backend/app/routers/workspace.py:895-904 | The exact answer, 403 exactly for who is no member or a viewer, and exactly that file marked deleted on success |
| Workspace.Store.UploadFile | backend/app/routers/workspace.py:434-499 | The exact answer, 403 exactly for who is no member or a viewer, with the limits of 50 and 20 MB, and exactly one new file in the requested place on success; a refusal changes nothing |
| Workspace.GuardIsExact | backend/app/routers/workspace.py:235-243 | Demoting or removing an owner leaves the space without an owner if and only if the guard raises, and touches no other space |
| Workspace.Store.UpdateMember | backend/app/routers/workspace.py:247-272 | The exact answer, 403 exactly for who is no owner and 400 exactly when the only owner would lose the role, and the exact new member table; every space keeps an owner |
| Workspace.Store.RemoveMember | backend/app/routers/workspace.py:276-295 | The exact answer, 403 exactly for who is no owner and 400 exactly when the only owner would lose the role, and the exact new member table; every space keeps an owner |
| Workspace.Store.AddMember | backend/app/routers/workspace.py:175-208 | The exact answer, 403 exactly for who is no owner, and the exact new member table; an existing role is never overwritten |
| Workspace.Store.CreateSpace | backend/app/routers/workspace.py:92-107 | A new space with its creator as owner, nothing else changed |
| Workspace.Store.DeleteSpace | backend/app/routers/workspace.py:157-169 | 403 exactly for who is no owner, and then nothing changes; otherwise exactly the space with its members, folders and files goes |
| Workspace.DropSpaceKeepsMembers | backend/app/routers/workspace.py:157-169 | The remaining spaces keep their members and owners |
| AgentLoop.RunAgent | backend/app/services/agent_runner.py:193-487 | For every model, tools and gates: at most max_iter model calls; each call sees the messages of the one before plus its reply and exactly its tools' answers, well formed, and after a rejection of the tools goes without them; unless something other than an LLMError escapes there is exactly one trace, and in terms of the model calls alone: the answer is the last reply without blanks at its ends, or the last earlier text, or the fixed sentence; the outcome, events and iteration count are those of the calls |
| AgentLoop.TraceTells | backend/app/services/agent_runner.py:408-487 | What a turn returns and traces, read off its model calls: answer, outcome, events, iterations, for every way to end |
| AgentLoop.LegalFollows | backend/app/services/agent_runner.py:388-470 | From one model call to the next exactly the reply and its tools' answers are added, or the tools are dropped |
| AgentLoop.MaxIterations | backend/app/services/agent_runner.py:185-189 | Five without a setting, else the setting cut to 1 to 20 |
| AgentLoop.TranscriptWellFormed | backend/app/services/agent_runner.py:435-470 | Whatever the model and the tools do, each assistant message with tool calls is followed by exactly its calls' answers, in order, with matching ids |
| AgentLoop.EveryCallAnswered | backend/app/services/agent_runner.py:441-470 | There are as many tool messages as tool calls |
| AgentLoop.AtMostOneRetry | backend/app/services/agent_runner.py:399-406 | The model's rejection of tools is forgiven at most once |
| AgentLoop.AllWellFormed | backend/app/services/agent_runner.py:388-406 | Every model call in a legal run saw the given messages and a well-formed continuation |
| AgentLoop.ExecuteCalls | backend/app/services/agent_runner.py:441-470 | The inner loop yields the answers and events of its calls, and stops exactly when a tool raises |
| AgentLoop.UseReply | backend/app/services/agent_runner.py:408-470 | A reply without calls ends the turn with its trace; one with calls extends messages and events by exactly its block |
| AgentLoop.Conclude | backend/app/services/agent_runner.py:414-433 | The answer is the reply without blanks at its ends, else the last text any reply had, else the fixed sentence; it is returned if and only if the egress gate accepts it; the trace holds it either way |
| AgentLoop.Exhaust | backend/app/services/agent_runner.py:472-487 | Running out of iterations returns the last text any reply had, as it is, or the fixed sentence, behind the same gate |
| Texts.StripTrims | backend/app/services/agent_runner.py:414-417 | strip() takes exactly the blanks at both ends |
| McpDispatch.PrintParseIff | backend/app/services/agent_runner.py:521-534 | Splitting a published name recovers slug and tool, for every tool name, if and only if the slug has no double underscore and does not end in one |
| McpDispatch.ParseIff | backend/app/services/agent_runner.py:521-534 | A name is read as slug and tool if and only if it is printed from them and the slug is such |
| McpDispatch.SlugIsGood | backend/app/services/mcp_manager.py:66-69 | Every server name gives such a slug |
| McpDispatch.SlugSpellsName | backend/app/services/mcp_manager.py:66-69 | The slug holds every letter and digit of the name, in order and in lower case, with one underscore for each gap; a name without any gives the fixed slug |
| McpDispatch.DispatchIsExact | backend/app/services/agent_runner.py:521-551 | With distinct slugs, a published name dispatches to exactly the server and tool that published it, and to nothing else |
| McpDispatch.DispatchIsUnique | backend/app/services/agent_runner.py:536-551 | Any name dispatches to at most one server, which is enabled, the user's own and attached to the agent |
| McpDispatch.DispatchesIff | backend/app/services/agent_runner.py:536-551 | A name goes to a server and tool if and only if the server is the user's own, enabled and in the allow-list, and the name is printed from its slug and the tool |
| McpDispatch.OfferedNames | backend/app/services/agent_runner.py:144-177 | The names published to the model are exactly those some attached server offers |
| McpDispatch.SchemaNames | backend/app/services/agent_runner.py:144-177 | The loop publishes the names of all servers, server by server |
| McpDispatch.ServerNames | backend/app/services/agent_runner.py:150-177 | Of one server: the names of the first hundred tools that have a name and a schema that fits |
| McpDispatch.AllNamesInOrder | backend/app/services/agent_runner.py:150-177 | The names of two lists of servers are those of the first, then those of the second |
| McpDispatch.Dispatch | backend/app/services/agent_runner.py:530-551 | The search finds an attached server whose slug and tool print the name, if there is one, whatever the order of the rows |
| McpDispatch.Registry.EnsureSlugFree | backend/app/routers/mcp.py:65-80 | Refuses exactly a slug that another server of the user has |
| McpDispatch.Registry.Create | backend/app/routers/mcp.py:96-112 | Refused exactly for a URL that is not http(s), in any case, or a slug the user already has; else exactly one new server; slugs stay distinct for every user |
| McpDispatch.IsHttpIff | backend/app/routers/mcp.py:99 | A URL passes if and only if it begins with one of the two schemes, in any case |
| McpDispatch.Registry.Update | backend/app/routers/mcp.py:117-142 | The exact answer and the exact new row; a refused rename or URL changes nothing; slugs stay distinct |
| McpDispatch.Registry.Remove | backend/app/routers/mcp.py:146-152 | Exactly that server goes, if it is the user's own |
| McpDispatch.Registry.RefreshTools | backend/app/routers/mcp.py:166-179 | Exactly that server's catalogue is replaced, and only when the server answered |
| RefreshTokens.StepKeepsInv | backend/app/routers/auth.py:37-150 | Every request, stopped between its commits or not, keeps the chain invariant |
| RefreshTokens.RunKeepsInv | backend/app/routers/auth.py:37-150 | So does every sequence of requests |
| RefreshTokens.TokensFormChains | backend/app/routers/auth.py:97-134 | In every reachable state the tokens form disjoint chains, one per login or registration; each token stands in one place; the first of a chain consumed no token, each later one was issued by the refresh that consumed its predecessor; all but the last are used |
| RefreshTokens.RefreshExtendsChain | backend/app/routers/auth.py:97-134 | A refresh that answers consumed the last token of a chain, and the new one follows it there |
| RefreshTokens.RefreshIff | backend/app/routers/auth.py:97-139 | A refresh goes through if and only if its claims name a token of theirs that is neither revoked nor used, and their user exists; it spends exactly that token |
| RefreshTokens.OneSuccessor | backend/app/routers/auth.py:97-134 | In every reachable state no token has been consumed by two refreshes |
| RefreshTokens.LiveIsLast | backend/app/routers/auth.py:109-115 | An unused token is the last of its chain |
| RefreshTokens.DeadIffNoRefresh | backend/app/routers/auth.py:97-134 | No request can refresh in a chain if and only if its last token is used or revoked |
| RefreshTokens.DeadStaysDead | backend/app/routers/auth.py:97-150 | Once that is so, no token of the chain ever refreshes again, in any run |
| RefreshTokens.LogoutKillsIffLast | backend/app/routers/auth.py:143-151 | Logging out ends a live chain if and only if it is done with the last token |
| RefreshTokens.LogoutIff | backend/app/routers/auth.py:143-151 | A logout is refused if and only if the claims are not the user's own; otherwise it revokes exactly the token they name |
| RefreshTokens.SpentForGood | backend/app/routers/auth.py:105-112 | From the moment a token is used or revoked every refresh with it is refused and changes nothing, in any run |
| RefreshTokens.ReuseIsRefused | backend/app/routers/auth.py:109-110 | A used token is refused and nothing changes, its chain included |
| RefreshTokens.TokenTable.RefreshToken | backend/app/routers/auth.py:97-139 | The handler does exactly the refresh step: answer, table and chain, including a stop after the first commit |
| RefreshTokens.TokenTable.IssueToken | backend/app/routers/auth.py:47-57 | The token part of register and login starts exactly one chain |
| RefreshTokens.TokenTable.LogOut | backend/app/routers/auth.py:143-151 | The handler does exactly the logout step; answer and table in terms of the claims |
| RefreshTokens.MarkingSpendsExactly | backend/app/security.py:75-81 | Marking spends exactly the token it names, if there is one, and changes no user, no revocation and no other token |
| RefreshTokens.RevokingSpendsExactly | backend/app/security.py:85-91 | Revoking spends exactly the token it names, if there is one, and changes no user, no use and no other token |
| OrderBook.RecomputedIsRight | backend/app/services/crm_service.py:82-90 | After recomputing, each line is price times quantity rounded to cents and the total is the sum of the lines |
| OrderBook.TotalIsClose | backend/app/services/crm_service.py:82-90 | The total of n items is within n half-cents of their unrounded value |
| OrderBook.RightIffUnchanged | backend/app/services/crm_service.py:82-90 | Recomputing changes nothing if and only if the totals are right, so recomputing again never does |
| OrderBook.RecomputeOrderTotal | backend/app/services/crm_service.py:82-90 | The loop produces exactly the recomputed order; the last rounding changes nothing |
| OrderBook.TransitionIff | backend/app/services/crm_service.py:10-17 | A change is legal if and only if it moves one stage forward or cancels an order that is not finished |
| OrderBook.PathIsBounded | backend/app/services/crm_service.py:10-17 | A path in the graph has at most three changes from pending |
| OrderBook.HistoryIsPathIff | backend/app/routers/crm_orders.py:296-315 | For every timeline: if the entries of an order's own changes lead to its status, the whole history under its id does if and only if every entry in it is its own |
| OrderBook.ForeignLastIsNoPath | backend/app/routers/crm_orders.py:296-315 | What the own entries reached cannot be reached once more: with one other entry behind them the history is no path |
| OrderBook.Book.HistoryOfOrder | backend/app/routers/crm_orders.py:296-315 | In every reachable state an order's own entries are a path of at most three changes from pending to its status, and its whole history is such a path if and only if its owner has no other entry under its id |
| OrderBook.Book.PostActivity | backend/app/routers/crm_activities.py:53-60 | The exact answer; on success exactly one entry with any type and metadata, and no order's own entries change |
| OrderBook.PostForged | backend/app/routers/crm_activities.py:53-60 | A run that leaves an order that never moved with a history of any length, which is no path |
| OrderBook.ReuseId | backend/app/routers/crm_orders.py:251-254 | A run of create, change, delete, create under the same id and change whose order has a history that is no path |
| OrderBook.Book.CreateOrder | backend/app/routers/crm_orders.py:191-214 | The exact answer, 201 exactly if contact, links and every spec are in order, and exactly one new pending order with one such item per spec and right totals |
| OrderBook.BuildItems | backend/app/routers/crm_orders.py:209-210 | The loop builds all items or stops at the first that cannot be built |
| OrderBook.BuildItemMeans | backend/app/routers/crm_orders.py:50-74 | An item takes its own name and price before the product's, a quantity of one for none, and the line total nearest in cents; it is refused exactly without its product or without any name |
| OrderBook.BuildAllMeans | backend/app/routers/crm_orders.py:209-210 | Either all items are such, in order, or the answer is that of the first spec that cannot be built |
| OrderBook.Book.AddOrderItem | backend/app/routers/crm_orders.py:323-328 | The exact answer, and the order with one item made from the spec behind the old ones, which stay as they are, and right totals |
| OrderBook.Book.UpdateOrderItem | backend/app/routers/crm_orders.py:334-352 | The exact answer, and the order with that item made anew from the spec, the others as they are, and right totals |
| OrderBook.Book.DeleteOrderItem | backend/app/routers/crm_orders.py:358-366 | The exact answer, and the order without that item and right totals |
| OrderBook.Book.DeleteOrder | backend/app/routers/crm_orders.py:251-254 | Exactly that order goes; the timeline stays |
| OrderBook.Book.UpdateOrderStatus | backend/app/routers/crm_orders.py:261-290 | The exact answer; a legal change writes the status and exactly one entry, anything else writes nothing |
| OrderBook.Book.OrderHistory | backend/app/routers/crm_orders.py:296-315 | Exactly the user's status-change entries that name the order, newest first |
| Rounding.RoundHalfEven | backend/app/services/crm_service.py:87-89 | The nearest integer, the even one of two equally near |
| Rounding.RoundKeepsOrder | backend/app/services/forging.py:117 | Rounding keeps order |

## Left out

- PtyEncoder.JsonEscapePtyData: does not cover dst_max below 30, where the unsigned subtraction wraps around; the only caller passes 16384.
- PtyPayload.ProcessResize: does not cover numbers that overflow a C int, which atoi leaves undefined.
- PtyClient.DumpMeansTextIff: a lone surrogate has no UTF-8; its three-byte form stands in for it, on both sides.
- PtyRelay.WireDelivery: composes one daemon's encoder with another's framer and decoder; in a deployment the peer is the Python client, modelled in `PtyClient` and `PtyReader`.
- PtyReader.FrameIsRead: `read()` on lines in any other layout than that of the daemon's data frames, with its fallbacks, is not modelled; nor is what `encode_output` makes of the text on its way to the browser.
- PtyReader.OutputReadIff: for reads that do not fit and bytes that are no UTF-8 only `PtyReader.PumpOutput` says what is heard; replacement characters may then make up for lost ones.
- PtyRelay.Relay.ServeClient: a write to the PTY or the socket is taken to be complete; the source ignores short writes.
- GoldenVersions.DefaultReadsAreComplete: covers reads that name no version; a read that names one does not look at its status.
- GoldenVersions.VersionsAreGapFree: one user's rows and documents; every query filters on the user, so other users' rows play no part. The unique index is taken to exist before the first insert.
- GoldenStaging.StageTraces: which traces are selected (reward bounds, limits, sort order) is not modelled, the two lists are inputs; the default ratios are one instance of the ratios parameter.
- GoldenHarness.RunHarness: scores and means are exact numbers; the last-bit error of binary floating point before rounding is not modelled.
- GoldenHarness.TokensAcrossSeparator: lower() is modelled on ASCII; non-ASCII letters that lower to ASCII are not.
- FileHistory.VersionsStayReadable: a backend keeps and hands out what it was given; outages, lost disks and a MongoDB connection that is missing altogether are not modelled.
- FileHistory.ConflictIffModified: at the commit the inserts of event and version are taken to reach the database before the update of the file row, so that a file that is gone gives the conflict.
- FileHistory.HistoryOnlyGrows: rows also cascade with the account of their uploader or creator; no endpoint deletes an account.
- FileHistory.HistoryIsConsistent: document conversion is an arbitrary replacement of the uploaded bytes; names, MIME types and view, download, rename and move events are one kind of event without content; roles are those of `Workspace`.
- Workspace.Store.UpdateFolder: concurrent folder moves are not modelled; the code walks and writes in separate steps, so the forest is stated for requests served one at a time. The same holds for member edits.
- AgentLoop.RunAgent: prompt assembly (shared context, tool choice, streaming callbacks) is the given list of messages; tool arguments and schemas are not modelled, a tool is its message and whether it reports an error. The gates are taken not to raise.
- AgentLoop.Conclude: strip() removes ASCII blanks only.
- McpDispatch.Registry.Create: concurrent creates and renames are not modelled, since no unique index decides between them. strip() removes ASCII blanks only, here and in Registry.Update.
- McpDispatch.DispatchIsExact: the servers do not change between publishing and dispatch; the second check inside mcp_manager.call_tool and the call itself are not modelled.
- McpDispatch.SlugIsGood: lower() is modelled on ASCII; characters that Unicode lowering turns into ASCII letters are not.
- RefreshTokens.TokensFormChains: requests are served one at a time; two concurrent refreshes of one token could both pass the check. Signatures, expiry and passwords are a token that fails to decode.
- OrderBook.TotalIsClose: prices are exact reals; binary floating point is not modelled.
- OrderBook.Book.HistoryOfOrder: deleting a contact or a user removes orders by cascade; for the order book a cascade is a DeleteOrder, and the removal of a user's own timeline is not modelled. Entries come back in the order they were written: `created_at` is taken to grow.
- Rate limits on logins, uploads and the Test button.
- Network and process plumbing: epoll, sockets, forkpty, peer credentials, terminal sizes beyond the two numbers.
- Cryptography: JWT, bcrypt, Fernet and SHA-256 as such.
- The sft and chat exports, order metrics, plain listings, products, contacts, deals and the agent tools that repeat these endpoints: they would only add easy members.
- Triggers, tracing storage, memory extraction, reports, dashboards, the frontend and the CLI.
