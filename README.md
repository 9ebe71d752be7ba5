# pairno file server: verified model of the request pipeline

This project is a Dafny model of the backend of the `pairno` file server
(`pairno/backend/server.go`). A client names a path. The server answers with
the file's bytes when the path is a regular file. When it is a directory,
the server answers with a ZIP archive of the whole tree. Every request is
recorded in a log file.

The model covers the four parts of that pipeline:

- **Dispatch** (`handler`). Log the caller's address. Answer 400 when `path`
  is empty and 404 when `os.Stat` fails. Otherwise log the path and hand it
  to the archive builder (directories) or the file streamer (everything else).
- **File streamer** (`sendFile`). Open the file and set
  `Content-Disposition: attachment; filename=<base name>` and
  `Content-Type: application/octet-stream`. Then copy the bytes.
- **Archive builder** (`zipAndSendDirectory`). Create the scratch file
  `<base name>.zip` in the working directory. Walk the tree, adding one entry
  per regular file keyed by its path relative to the directory. Any error
  stops the walk. Then set the ZIP headers, reopen the scratch file and send
  it. The scratch file is removed on every path once it has been created.
- **Request logger** (`log`). Normalise the log file name (spaces become
  `_`). Append each datum and a newline, stopping at the first failed write.
  After a successful sync, append a line of fifteen `*`.

The environment is abstract:

- The filesystem is a map from path to a tree node (`Fs.Node`). Each node
  carries the outcome the operating system would give for it:
  - a failed stat;
  - a file that will not open;
  - a read that faults after some bytes;
  - a directory that cannot be listed.
- The server's working directory is `Server.scratch`, a map from scratch file
  names to the archive entries written into them.
- The log file is `Server.logs`, the strings appended to it. The logger
  reopens the file on every call, so each call gets an outcome of its own
  (`Logging.LogCall`): how many writes the file accepts during that call and
  whether its sync succeeds. A request makes two calls, one for the address
  and one for the path, each with its own outcome, so a failure can come and
  go between them. When the open fails, the source ignores the error and
  writes to a nil descriptor, where every write fails. That is a call that
  accepts no writes.
- Failures of the scratch storage in one archive request are a `Faults`
  value. It says whether creating the scratch file fails, which entry paths
  the ZIP writer refuses, and whether reopening the finished archive fails.
- The response (`Http.Response`, whose value is `Http.Reply`) is what the
  client sees:
  - a status;
  - the header map as it stood when the first body byte went out;
  - the body as a list of chunks: raw bytes, a whole archive as its entry
    list, or a line of error text.

  `http.Error` is modelled as net/http implements it. It switches
  `Content-Type` to `text/plain; charset=utf-8`, sets
  `X-Content-Type-Options: nosniff`, sets the status, and writes the message
  line. Once the response is committed, only the message line reaches the
  client.

The imperative parts are methods of the `Backend.Server` class. Each method
is proved against a specification function of the inputs and the old state:

- `Log` (its loop) against `Logging.Logged`;
- `AddEntries` (the walk callback loop) against `Archive.Fold`;
- `SendFile`, `ZipAndSendDirectory` and `Handle` against `SendFileReply`,
  `ArchiveReply` and `HandleReply`.

What the source promises is then proved about those functions. The archive
is checked against a reference definition, `Archive.RegularFiles`, which
lists a tree's regular files directly.

Behaviour of the code worth noting, all of it modelled as written:

- An open failure in `sendFile` does set a header: `http.Error` sets
  `Content-Type` to plain text. Only `Content-Disposition` is absent.
- The ZIP headers are set before the scratch archive is reopened
  (server.go:93-96). So when the reopen fails, the 500 answer still carries
  `Content-Disposition: attachment; filename=<name>.zip`.
- After a read fault in the middle of a copy, `http.Error` cannot change the
  status any more, but its message is still appended to the partial body.
  The status becomes 500 only when no byte had been sent.
- The scratch name is derived from the directory's base name alone, not from
  a per-request token. `ScratchNameOfChild` shows that two directories with
  the same name share one scratch file.
- A log failure during the address call does not stop the path call from
  writing. The log can then hold a path record with no address record before
  it (`Backend.PathRecordWithoutAddress`).
- The log file name is a process-wide variable that is normalised again on
  every call, not a fixed configuration value. Since normalising is
  idempotent, it settles after the first call.

## Model

| member | source | states |
|---|---|---|
| `Text.Split` | pairno/backend/server.go:114 | `strings.Split`: at least one piece, and no piece contains the separator |
| `Text.Join` | pairno/backend/server.go:115 | `strings.Join`: nothing for no pieces; the first piece comes first, then the separator when there is a second piece; `JoinSplit` and `SplitJoin` are its round trips with `Split` |
| `Text.JoinSplit` | pairno/backend/server.go:114-115 | splitting on a character and joining with another replaces each occurrence of the first by the second |
| `Text.Normalise` | pairno/backend/server.go:114-115 | the normalised log name has no space, the same length, and keeps every character that was not a space |
| `Text.NormaliseIdempotent` | pairno/backend/server.go:114-115 | normalising the log name a second time leaves it unchanged |
| `Text.Base` | pairno/backend/server.go:24 | `filepath.Base` is never empty and holds no `/` except for the root "/"; a plain name is its own base |
| `Text.BaseOfChild` | pairno/backend/server.go:35 | the base of `dir/name` is `name` for any plain name |
| `Text.SplitJoin` | pairno/backend/server.go:59 | joining names with `/` is undone by splitting when no name holds `/`, so relative paths determine their names |
| `Fs.RelPath` | pairno/backend/server.go:59 | `filepath.Rel` from the walked root: "." for the root itself, the name alone one level down |
| `Fs.RelPathNames` | pairno/backend/server.go:59 | below the root, the relative path gives back the names it was made of, when no name holds `/` |
| `Fs.Walk` | pairno/backend/server.go:54 | `filepath.Walk` of one entry: a file is one successful call; a failed stat or a failed listing is one call with the error; a listable directory is called first, before anything below it; every call is for the entry or below it |
| `Fs.WalkAll` | pairno/backend/server.go:54 | the walks of a directory's children in turn; every call is for an entry strictly below the directory |
| `Archive.Fold` | pairno/backend/server.go:54-81 | the callback run step by step until the first error: on success the entries only grow, by at most one per step; a walk holding any failed call ends in an error |
| `Archive.Callback` | pairno/backend/server.go:54-81 | the walk callback either fails or keeps the entries written so far; it adds at most one entry, and only for a regular file, keyed by its relative path and holding its bytes |
| `Archive.Entries` | pairno/backend/server.go:59-79 | one entry per file, in order, keyed by the path relative to the walked directory and holding the file's bytes |
| `Archive.WalkArchive` | pairno/backend/server.go:54-87 | all or nothing: the callback run over the walk of a tree yields exactly its regular files, in walk order, when no step fails, and an error as soon as one fails (stat, listing, open, entry create, copy) |
| `Archive.WalkAllArchive` | pairno/backend/server.go:54-81 | the same for the walk over a directory's children in turn |
| `Backend.WalkFrom` | pairno/backend/server.go:54 | the walk from the requested directory: a missing or unstat-able root is a single error call on the root; a listable root is visited first |
| `Backend.BuiltArchive` | pairno/backend/server.go:54-81 | what the callback leaves in the scratch archive: an archive exactly when the directory exists and no step of its walk fails, and then exactly the entries of its files, in walk order, keyed by relative path |
| `Archive.NoFilesEmptyArchive` | pairno/backend/server.go:54-81 | a directory with no file below it gives an empty archive, not an error, provided no step of its walk fails (it and every subdirectory can be listed and every entry stats); a directory that cannot be listed gives an error even when empty |
| `Archive.SitesDistinct` | pairno/backend/server.go:54-81 | in a well-formed tree the walk reaches no two regular files at the same position |
| `Archive.EntryPathsDistinct` | pairno/backend/server.go:59-73 | the archive entries of a well-formed directory have pairwise distinct relative paths |
| `Http.Copied` | pairno/backend/server.go:27 | `io.Copy` appends the source's bytes and commits the response exactly when it copies at least one byte; status and headers stay as they were |
| `Http.WithHeader` | pairno/backend/server.go:24 | `Header().Set`: before commit the key takes the value and every other header is kept; after commit nothing changes; status and body never change |
| `Http.Sent` | pairno/backend/server.go:104 | a write appends its chunk and commits the response; status and headers stay as they were |
| `Http.Failed` | pairno/backend/server.go:28-30 | `http.Error` always appends its message line; before commit it sets the error status and the plain-text type, after commit the client sees neither |
| `Http.Response.SetHeader` | pairno/backend/server.go:24-25 | setting a header changes the response only while nothing has been sent |
| `Http.Response.constructor` | pairno/backend/server.go:135 | a handler starts from an uncommitted 200 response with no header and no body |
| `Http.Response.Copy` | pairno/backend/server.go:27 | the writer's new state is the copy of the bytes onto the old one |
| `Http.Response.Write` | pairno/backend/server.go:104 | a write appends one chunk and commits the response |
| `Http.Response.Error` | pairno/backend/server.go:18 | the writer's new state is `http.Error` applied to the old one |
| `Logging.Repeat` | pairno/backend/server.go:128 | `strings.Repeat` gives `n` copies of the character |
| `Logging.Lines` | pairno/backend/server.go:118-119 | reference definition of the datum lines: one per datum, in argument order, each the datum followed by a newline; the property proved with it is `Logging.CompleteRecord` |
| `Logging.Logged` | pairno/backend/server.go:113-132 | the lines one call appends never exceed what the file accepts during the call and are a prefix of the full record; the full record (with the separator) is written exactly when the sync succeeds and every write fits; writing goes on until the first failed write |
| `Logging.CompleteRecord` | pairno/backend/server.go:118-131 | a completed call leaves each datum with a newline in order, then one line of exactly fifteen `*` |
| `Logging.NoSeparatorOnFailure` | pairno/backend/server.go:119-127 | if a datum write or the sync fails, no separator is written; every appended line is a datum line |
| `Backend.ScratchName` | pairno/backend/server.go:35 | the scratch archive name ends in `.zip` |
| `Backend.SendFileReply` | pairno/backend/server.go:15-31 | open failure: 500 with no disposition, a plain-text type and the message as the whole body; otherwise the disposition names `Base(path)`; a clean read gives 200, octet-stream and exactly the file's bytes; a read fault gives 500 only if no byte was sent, and the message after the bytes sent |
| `Backend.Delivered` | pairno/backend/server.go:93-108 | the send step on an uncommitted response: the disposition always names the scratch file; when the reopen succeeds the type is `application/zip`, the status is kept and the archive is the one chunk sent; when it fails the status is 500, the type plain text and the error line the one chunk sent |
| `Backend.ArchiveReply` | pairno/backend/server.go:34-109 | 200 exactly when the scratch file is created, the walk succeeds and the archive reopens; then the disposition names `Base(dir).zip`, the type is `application/zip` and the body is the built archive; a create or walk failure never sets the ZIP headers; a reopen failure is a 500 that still carries the `Base(dir).zip` disposition, with a plain-text type and the error as the whole body |
| `Backend.HandleReply` | pairno/backend/server.go:135-161 | 400 exactly for an empty path, 404 exactly when the stat fails, each with a text body and no disposition; a 200 carries the ZIP type and `Base(path).zip` exactly for directories, and the octet-stream type and `Base(path)` otherwise |
| `Backend.Resolve` | pairno/backend/server.go:141-160 | the handler's classification: missing parameter exactly for an empty path, not found exactly when the stat fails; directories go to the archive builder and everything else found is a `File` node, the model's stand-in for any non-directory |
| `Backend.RequestLog` | pairno/backend/server.go:140-154 | a request's log lines start with what the address call wrote; a missing path or a failed stat adds nothing, so the lines are a prefix of the address record; for a found path the path call adds at most two lines, and its first line is `filepath:<path>` exactly when that call can write at all |
| `Backend.DirectoryArchive` | pairno/backend/server.go:54-104 | with working scratch storage, a directory is sent exactly when no walk step fails, and the archive then holds exactly its regular files in walk order, keyed by relative path, with their bytes |
| `Backend.ArchiveEntriesUnique` | pairno/backend/server.go:59-73 | every regular file appears in a delivered archive exactly once |
| `Backend.EmptyDirectoryArchive` | pairno/backend/server.go:54-104 | a directory with no file below it, which can be listed, whose subdirectories can all be listed and whose entries all stat, is delivered as an empty archive with status 200 when the scratch file can be created and reopened |
| `Backend.ScratchNameOfChild` | pairno/backend/server.go:35-36 | the scratch file of `parent/name` is `name.zip` whatever the parent, so directories with the same name share it |
| `Backend.MissingPathIgnoresFilesystem` | pairno/backend/server.go:141-145 | an empty path is answered 400 whatever the filesystem holds |
| `Backend.FileRequestDelivers` | pairno/backend/server.go:156-160 | an existing readable file is delivered verbatim with status 200, octet-stream type and its base name as the download name |
| `Backend.DirectoryRequestDelivers` | pairno/backend/server.go:156-157 | with working scratch storage, requesting a directory yields its archive exactly when no walk step fails, and the archive holds exactly its regular files, keyed by relative path |
| `Backend.RequestLogRecords` | pairno/backend/server.go:140-154 | when both calls can write and sync, a found path leaves the address record and then the path record, each complete; a missing or unknown path leaves only the address record |
| `Backend.PathRecordWithoutAddress` | pairno/backend/server.go:140-154 | when the log cannot be written during the address call but works for the path call, the request's log lines are the path record alone |
| `Backend.Server.constructor` | pairno/backend/server.go:111 | the server starts with its filesystem, an empty working directory, the given log name and an empty log |
| `Backend.Server.Stat` | pairno/backend/server.go:147 | environment definition of `os.Stat` on the modelled filesystem: the node exactly when its metadata query succeeds |
| `Backend.Server.Open` | pairno/backend/server.go:16-20 | environment definition of `os.Open`: it fails exactly for a missing path, a failed stat or a file that refuses to open, and otherwise returns the node |
| `Backend.Server.WriteLog` | pairno/backend/server.go:119 | a log write succeeds exactly while the file accepts more writes in this call, and then appends the string |
| `Backend.Server.Log` | pairno/backend/server.go:113-132 | the log name becomes its normalised form and the log grows by exactly `Logged` of the data under this call's outcome; nothing else changes |
| `Backend.Server.SendFile` | pairno/backend/server.go:15-31 | the response becomes `SendFileReply` of the old one |
| `Backend.Server.SendArchive` | pairno/backend/server.go:93-108 | the response becomes the ZIP headers naming the scratch file, then its archive, or the reopen error |
| `Backend.Server.AddEntries` | pairno/backend/server.go:54-81 | the walk callback loop succeeds exactly when `Fold` does, and the scratch archive then holds its result; no other scratch file changes |
| `Backend.Server.ZipAndSendDirectory` | pairno/backend/server.go:34-109 | the response becomes `ArchiveReply` of the old one; the scratch file is gone afterwards on every path once created, and nothing is left behind when creation fails |
| `Backend.Server.Handle` | pairno/backend/server.go:135-161 | the response is `HandleReply`; only a directory request touches the working directory, and removes that scratch file again; the log grows by `RequestLog` under the outcomes of the two log calls, and the log name ends up normalised |

## Left out

- HTTP transport and start-up (`StartServer`, the listening port) and the parsing of the URL and query. The `path` parameter, the remote address and the host strings are inputs of `Handle`.
- ZIP encoding. The archive is its list of entries, and the response body carries that list. The bytes on the wire are not modelled.
- Closing the ZIP writer and the scratch file (server.go:89-90 and the deferred closes). Their errors are ignored by the source, so a ZIP whose central directory failed to write would be sent as if complete. The model does not capture that.
- The `zipWriter == nil` branch (server.go:46-50). It is dead code: `zip.NewWriter` never returns nil.
- Write failures on the client connection (a client that disconnects). The response sink accepts every write. So a failure while sending the reopened archive (server.go:104-108) does not arise in the model.
- Failure of `os.Remove` on the scratch file. The source ignores it, and the model treats removal as always succeeding.
- Special files. `Fs.Node` has only `File` for whatever is not a directory, so FIFOs, sockets and device files are not modelled: the source opens and copies every non-directory like a regular file (server.go:60-80, 156-160), where opening a FIFO blocks and opening a socket fails. "Regular file" in the rows above means a `File` node of the model, that is, any non-directory entry whose open and read outcomes are the node's.
- Backend.Server.WriteLog: writes are modelled as all-or-nothing. A real `WriteString` can write part of the string and then fail (a full disk), which leaves a truncated last line in the log before `log` returns (server.go:119-121).
- `filepath.Walk` internals. Children are visited in the order the tree lists them (Go sorts them by name). The walk uses the same metadata as `os.Stat`, because symbolic links are not modelled. A symlink to a directory, which `os.Stat` and `filepath.Walk`'s `Lstat` see differently, is therefore not captured.
- `filepath.Rel` is taken as the names from the root joined by `/` ("." for the root itself). `filepath.Base` is modelled with its trailing-slash and empty-path cases, but only for `/` separators.
- The scratch archives and the log file live in the working directory, which is kept apart from the served tree. A request for the working directory itself would walk into its own scratch file; the model does not capture that.
- The start-up time formatting of the initial log name (server.go:111). The starting name is a constructor parameter.
- `fmt.Println` diagnostics. They do not affect the response.
- Concurrency between requests. Two concurrent requests can clash on a shared scratch name (see `Backend.ScratchNameOfChild`) or interleave their log lines; neither is modelled.
- Closing the opened files (`defer file.Close()`). File handles are not modelled.
