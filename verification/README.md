# swift-fingerd request handler, modelled in Dafny

This project models `FingerHandler`, the per-connection handler of
swift-fingerd, a small Finger server (RFC 1288). The handler appends each
inbound chunk to a `received` buffer. When a chunk ends with CR LF, it does
the following:

1. It deletes every `/W` (the verbose token) from the whole buffer.
2. It trims the whitespace at both ends.
3. It answers the result: an empty query gets a canned error, and any other
   query gets the user's record, read from `<userDirectory>/<query>.txt`,
   or the sentinel `user not found`.
4. It writes `answer + "\r\n"`.

The constructor strips one trailing `/` from the user directory.

Files:

- `wrappers.dfy`: `Option`.
- `query.dfy` (module `Query`): `RemoveAll`, `Trim` and `Normalize` as
  functions. `Trim` scans inward from both ends with `SkipBlanks` and
  `SkipBlanksBack`. Lemmas give an independent description of
  trimming (cut into whitespace, a core, and whitespace, and that cut is
  unique) and say how removing `/W` behaves with concatenation.
- `user_store.dfy` (module `UserStore`): the filesystem is a
  `map<string, Option<string>>`. A path missing from the map does not exist.
  `None` stands for a file that exists but cannot be read or is not UTF-8.
  `UserPath`, `FileExists` and `ReadFile` are defined over that map.
- `finger_handler.dfy` (module `Finger`): `StripTrailingSlash` and `Answer`.
  `Step` is the specification of one read event, and `Run` covers a sequence
  of them. Lemmas give the protocol's observable behaviour. The class
  `FingerHandler` has the fields `received`, `answer`, `userDirectory` and
  `verbose`. Its method `ChannelRead` is proved to do exactly what `Step`
  says.

The filesystem is a parameter of `ChannelRead`, because the handler reads
the disk afresh on every lookup.

Behaviour as written that a reader might not expect, which the model keeps:

- The handler checks termination on the current chunk, not on the
  accumulated buffer. A CR LF split across two chunks is never recognised
  (`SplitTerminatorUnnoticed`).
- The buffer is never cleared. A second line on a connection that is still
  open is looked up glued to the first line (`BufferNeverReset`).
- The canned error reads "only single user look-up is supporter at the
  moment." (sic). The model keeps that text.
- `/W` is removed in a single left-to-right scan. Normalisation is therefore
  not idempotent: `//WW` becomes `/W`, which would normalise further to
  the empty string (`NormalizeNotIdempotent`).
- The user name goes into the path unchecked. On a real filesystem a name
  containing `/` or `..` reaches other files. The model passes such a name
  through unchanged but does not resolve it (see `UserStore.FileExistsFrame`
  under "Left out").

## Model

| member | source | states |
|---|---|---|
| `Query.RemoveAll` | Sources/swift-fingerd/main.swift:69 | removing a key never lengthens the string; an empty key leaves it unchanged |
| `Query.RemoveAllDeletes` | Sources/swift-fingerd/main.swift:69 | removal only deletes characters (multiset inclusion), and the string changes exactly when the key occurs in it |
| `Query.RemoveAllConcat` | Sources/swift-fingerd/main.swift:69 | removing `/W` distributes over concatenation unless the seam itself spells `/W` |
| `Query.RemoveAllInsertedKey` | Sources/swift-fingerd/main.swift:69 | a `/W` inserted anywhere is deleted, and the text on either side is treated as if apart |
| `Query.RemoveAllSinglePass` | Sources/swift-fingerd/main.swift:69 | the scan runs once, left to right: `//WW` leaves `/W`, which still contains the token |
| `Query.SkipBlanks` | Sources/swift-fingerd/main.swift:70 | scanning forward from a position stops within the string, and where it stops before the end the character is not whitespace |
| `Query.SkipBlanksBack` | Sources/swift-fingerd/main.swift:70 | scanning backward from a position stops at or before it, and the character just before the stop is not whitespace |
| `Query.SkippedAreBlank` | Sources/swift-fingerd/main.swift:70 | every character the forward scan passes over is whitespace |
| `Query.SkippedBackAreBlank` | Sources/swift-fingerd/main.swift:70 | every character the backward scan passes over is whitespace |
| `Query.Trim` | Sources/swift-fingerd/main.swift:70 | the trimmed string is no longer than the input and has no whitespace at either end |
| `Query.TrimSplit` | Sources/swift-fingerd/main.swift:70 | the input is whitespace, then the trimmed string, then whitespace |
| `Query.TrimUnique` | Sources/swift-fingerd/main.swift:70 | any such cut with a core free of edge whitespace gives exactly the trimmed string |
| `Query.TrimIdempotent` | Sources/swift-fingerd/main.swift:70 | trimming twice is trimming once |
| `Query.TrimAppendWhitespace` | Sources/swift-fingerd/main.swift:70 | trailing whitespace, such as the CR LF terminator, does not change the trimmed result |
| `Query.Normalize` | Sources/swift-fingerd/main.swift:69-70 | the query is no longer than the buffer and has no whitespace at either end |
| `Query.NormalizeIgnoresKeyAtEnds` | Sources/swift-fingerd/main.swift:69-70 | a `/W` prepended or appended to the buffer does not change the query |
| `Query.NormalizeIgnoresInsertedKey` | Sources/swift-fingerd/main.swift:69-70 | a `/W` inserted between two parts does not change the query unless the split spells `/W` |
| `Query.NormalizeQueryLine` | Sources/swift-fingerd/main.swift:69-70 | a user name without edge whitespace or `/W`, followed by CR LF, normalises to itself |
| `Query.NormalizeBlankLine` | Sources/swift-fingerd/main.swift:69-70 | a buffer of whitespace only normalises to the empty query |
| `Query.NormalizeNotIdempotent` | Sources/swift-fingerd/main.swift:69-70 | normalisation is not idempotent: `//WW` gives `/W`, and `/W` gives the empty query |
| `UserStore.UserPath` | Sources/swift-fingerd/main.swift:33 | the path is the directory, `/`, the user name and `.txt` |
| `UserStore.UserPathInjective` | Sources/swift-fingerd/main.swift:46 | distinct user names in one directory give distinct paths |
| `UserStore.FileExistsFrame` | Sources/swift-fingerd/main.swift:32-39 | `FileExists` depends only on the entry at `<directory>/<user>.txt`: creating that file, readable or not, makes the user exist and removing it makes the user not exist; the entry of every other path string is unaffected |
| `UserStore.ReadFile` | Sources/swift-fingerd/main.swift:41-57 | the result is the sentinel or the file's exact contents; the sentinel when the file is absent, unreadable or not UTF-8, otherwise the contents verbatim |
| `Finger.StripTrailingSlash` | Sources/swift-fingerd/main.swift:24-28 | with a trailing `/`, the result plus `/` is the input; otherwise the input is unchanged |
| `Finger.StripTrailingSlashOnce` | Sources/swift-fingerd/main.swift:24-28 | only one slash goes: `d//` becomes `d/` |
| `Finger.DecodeChunk` | Sources/swift-fingerd/main.swift:62 | a decodable chunk is taken verbatim; an undecodable one is exactly CR LF and so always completes the line |
| `Finger.AnswerCases` | Sources/swift-fingerd/main.swift:74-77 | an empty query gets the canned error; any other query gets `ReadFile` of it, which is that user's file verbatim when it reads as text and the sentinel otherwise |
| `Finger.Step` | Sources/swift-fingerd/main.swift:59-80 | the chunk, or CR LF when undecodable, is appended; a response exists iff the chunk ends with CR LF (always for an undecodable chunk); without one, `answer` is unchanged; with one, `answer` is the answer for the whole buffer and the response is `answer` + CR LF |
| `Finger.Run` | Sources/swift-fingerd/main.swift:59-66 | after a sequence of chunks, the buffer is the old buffer plus all of them in order, and there is one response slot per chunk, filled iff that chunk ends with CR LF |
| `Finger.RunResponses` | Sources/swift-fingerd/main.swift:62-80 | every response on a connection is the answer computed from the old buffer plus all chunks up to and including the one that triggered it, followed by CR LF |
| `Finger.RecordIsReturned` | Sources/swift-fingerd/main.swift:76-80 | a query line for a user with a readable record gets the record verbatim followed by CR LF |
| `Finger.MissingUserGetsSentinel` | Sources/swift-fingerd/main.swift:41-57 | a query line for a user whose file is absent or unreadable gets `user not found` + CR LF |
| `Finger.BlankLineGetsError` | Sources/swift-fingerd/main.swift:74-80 | a blank line gets exactly the canned error (with "supporter") followed by CR LF |
| `Finger.VerboseMarkerInert` | Sources/swift-fingerd/main.swift:69 | `/W` before the query or just before its CR LF gives the same response as the bare query |
| `Finger.PartialDelivery` | Sources/swift-fingerd/main.swift:62-66 | a line split into chunks of which only the last ends with CR LF gets no response before the last chunk, then the same response as the whole line sent at once |
| `Finger.SplitTerminatorUnnoticed` | Sources/swift-fingerd/main.swift:66 | chunks `alice\r` and `\n` produce no response at all |
| `Finger.SecondChunkSeesFirst` | Sources/swift-fingerd/main.swift:64 | the response to a second terminated chunk is computed from both chunks together |
| `Finger.BufferNeverReset` | Sources/swift-fingerd/main.swift:17 | two plain query lines on one connection: the second looks up the first name, CR LF and the second name, as one user name |
| `Finger.FingerHandler.constructor` | Sources/swift-fingerd/main.swift:22-30 | the directory is stored with one trailing slash stripped, `verbose` as given, and buffer and answer start empty |
| `Finger.FingerHandler.ChannelRead` | Sources/swift-fingerd/main.swift:59-80 | the new buffer, answer and response are exactly those of `Step`; the directory and `verbose` do not change |

## Left out

- Event-loop and network plumbing are not modelled: the `ByteBuffer` allocation, `writeAndFlush`, closing after the write completes, the flush in `channelReadComplete` and the close in `errorCaught`. The response is returned as data, and the model does not represent the connection closing.
- The `Fingerd` command is not modelled: its flags, tilde expansion, the directory-existence check, the event loop group, the bootstrap options, backpressure and binding. All of this is startup I/O and threading.
- Logging (`print`, and the `verbose` flag's only effect) is not modelled. `verbose` is kept as a field that never changes.
- `FileManager.fileExists` and `Data(contentsOf:)` followed by UTF-8 decoding are abstracted as one filesystem map. The map is a snapshot taken at the time of the read event, so a file that changes between the existence check and the read is not represented.
- NIO's `readString` is modelled as possibly failing (`None`, treated as CR LF). With the length it is given it does not fail in practice.
- `Finger.PartialDelivery`: chunks are modelled as text already decoded. NIO's `readString` decodes each chunk's bytes on its own and replaces invalid or incomplete UTF-8 with U+FFFD. So a multi-byte character split across two chunks (for example `jos` 0xC3, then 0xA9 CR LF) arrives as two replacement characters, not `josé`. The lemma's "same response as the whole line sent at once" covers only splits at character boundaries.
- `UserStore.FileExistsFrame`: the filesystem map treats distinct path strings as distinct files. It does not resolve `.` or `..`, follow symbolic links or fold case. On a real volume `./bob`, `x/../bob` or (case-insensitively) `BOB` can reach the same file as `bob`, and the lemma's "every other path is unaffected" holds of path strings only.
- Strings are sequences of Unicode scalars. Swift's `hasSuffix` and `dropLast` work on grapheme clusters, and Foundation's replacement compares canonically equivalent forms. These agree with the model for the ASCII tokens `/`, `/W` and CR LF, except for exotic clusters (for example, a prepended mark fused to a final `/`).
- `Query.RemoveAll`: its contract states only that the result is no longer than the input and that an empty key changes nothing. The left-to-right, non-overlapping scan is pinned down by the lemmas `RemoveAllDeletes`, `RemoveAllConcat`, `RemoveAllInsertedKey` and `RemoveAllSinglePass`.
