/** The request pipeline of the file server: the handler that checks the
    `path` parameter, stats it and dispatches; the file streamer; the archive
    builder with its scratch file; and the request logger. The filesystem is
    a map from the paths a client can name to the nodes found there, the
    server's working directory (where scratch archives go) is a map from file
    names to the archive entries written into them, and the log file is the
    list of strings appended to it. */
module Backend {
  import opened Text
  import opened Fs
  import opened Archive
  import opened Http
  import opened Logging

  const OctetStream := "application/octet-stream"
  const ZipType := "application/zip"

  /** Failures of the scratch storage during one archive request: creating
      the scratch file, creating an entry (by relative path), reopening the
      finished archive for sending. */
  datatype Faults = Faults(createFails: bool, rejected: set<string>, reopenFails: bool)

  /** The value of a `Content-Disposition` header offering `name` as a download. */
  function Attachment(name: string): string
  {
    "attachment; filename=" + name
  }

  /** The scratch archive's file name, also the advertised download name. */
  function ScratchName(dirPath: string): (name: string)
    ensures |name| > 4 && name[|name| - 4..] == ".zip"
  {
    Base(dirPath) + ".zip"
  }

  /** `os.Stat` succeeds. */
  predicate StatOk(fs: map<string, Node>, path: string)
  {
    path in fs && !fs[path].Unreadable?
  }

  /** `os.Open` fails: nothing there, no metadata, or a file that refuses to
      open. A directory opens. */
  predicate OpenFails(fs: map<string, Node>, path: string)
  {
    path !in fs || fs[path].Unreadable? || (fs[path].File? && !fs[path].openOk)
  }

  /** What reading an opened node yields before the end or the fault. */
  function Readable(n: Node): seq<byte>
  {
    if n.File? then n.data else []
  }

  /** Reading the node fails after `Readable(n)`; reading a directory always fails. */
  predicate ReadFaults(n: Node)
  {
    !n.File? || n.readFault
  }

  /** The calls the walk of `dirPath` makes of its callback: a failed lstat of
      the root is reported as an error on the root. */
  function WalkFrom(fs: map<string, Node>, dirPath: string): (steps: seq<Step>)
    ensures |steps| >= 1
    ensures dirPath !in fs || fs[dirPath].Unreadable? ==> steps == [Fail([])]
    ensures dirPath in fs && fs[dirPath].Dir? && fs[dirPath].listOk ==> steps[0] == Visit([], fs[dirPath])
  {
    if dirPath in fs then Walk(fs[dirPath], []) else [Fail([])]
  }

  /** The archive the walk callback leaves in the scratch file, or `None` when
      the walk stopped on an error. */
  function BuiltArchive(fs: map<string, Node>, dirPath: string, rejected: set<string>): (r: Option<seq<Entry>>)
    ensures r.Some? <==> dirPath in fs && Healthy(fs[dirPath], [], rejected)
    ensures r.Some? ==> r.value == Entries(RegularFiles(fs[dirPath], []))
  {
    if dirPath in fs then
      WalkArchive(fs[dirPath], [], [], rejected);
      assert [] + Entries(RegularFiles(fs[dirPath], [])) == Entries(RegularFiles(fs[dirPath], []));
      Fold(WalkFrom(fs, dirPath), [], rejected)
    else Fold(WalkFrom(fs, dirPath), [], rejected)
  }

  /** The response `sendFile` leaves. */
  function SendFileReply(r0: Reply, fs: map<string, Node>, path: string): (r: Reply)
    ensures r0 == Fresh() ==> r.status == StatusOK || r.status == StatusInternalServerError
    ensures r0 == Fresh() && OpenFails(fs, path) ==>
      && r.status == StatusInternalServerError
      && ContentDisposition !in r.header
      && ContentType in r.header && r.header[ContentType] == PlainText
      && r.body == [Message("Could not open file" + "\n")]
    ensures r0 == Fresh() && !OpenFails(fs, path) ==>
      && ContentDisposition in r.header && r.header[ContentDisposition] == Attachment(Base(path))
    ensures r0 == Fresh() && !OpenFails(fs, path) && !ReadFaults(fs[path]) ==>
      && r.status == StatusOK
      && ContentType in r.header && r.header[ContentType] == OctetStream
      && r.body == Raw(Readable(fs[path]))
    ensures r0 == Fresh() && !OpenFails(fs, path) && ReadFaults(fs[path]) ==>
      && (r.status == StatusInternalServerError <==> Readable(fs[path]) == [])
      && r.body == Raw(Readable(fs[path])) + [Message("Error sending file" + "\n")]
  {
    if OpenFails(fs, path) then Failed(r0, "Could not open file", StatusInternalServerError)
    else
      var file := fs[path];
      var r1 := WithHeader(WithHeader(r0, ContentDisposition, Attachment(Base(path))), ContentType, OctetStream);
      var r2 := Copied(r1, Readable(file));
      if ReadFaults(file) then Failed(r2, "Error sending file", StatusInternalServerError) else r2
  }

  /** The response once the archive has been built: the ZIP headers naming
      `zipFile`, then the reopened archive, or an error when reopening fails. */
  function Delivered(r0: Reply, zipFile: string, entries: seq<Entry>, reopenFails: bool): (r: Reply)
    ensures !r0.committed ==>
      && ContentDisposition in r.header && r.header[ContentDisposition] == Attachment(zipFile)
    ensures !r0.committed && !reopenFails ==>
      && r.status == r0.status
      && ContentType in r.header && r.header[ContentType] == ZipType
      && r.body == r0.body + [Zip(entries)]
    ensures !r0.committed && reopenFails ==>
      && r.status == StatusInternalServerError
      && ContentType in r.header && r.header[ContentType] == PlainText
      && r.body == r0.body + [Message("Error opening generated ZIP file" + "\n")]
  {
    var r1 := WithHeader(WithHeader(r0, ContentDisposition, Attachment(zipFile)), ContentType, ZipType);
    if reopenFails then Failed(r1, "Error opening generated ZIP file", StatusInternalServerError)
    else Sent(r1, Zip(entries))
  }

  /** The response `zipAndSendDirectory` leaves. */
  function ArchiveReply(r0: Reply, fs: map<string, Node>, dirPath: string, faults: Faults): (r: Reply)
    ensures r0 == Fresh() ==> r.status == StatusOK || r.status == StatusInternalServerError
    ensures r0 == Fresh() ==>
      (r.status == StatusOK <==>
        !faults.createFails && BuiltArchive(fs, dirPath, faults.rejected).Some? && !faults.reopenFails)
    ensures r0 == Fresh() && r.status == StatusOK ==>
      && ContentDisposition in r.header && r.header[ContentDisposition] == Attachment(Base(dirPath) + ".zip")
      && ContentType in r.header && r.header[ContentType] == ZipType
      && r.body == [Zip(BuiltArchive(fs, dirPath, faults.rejected).value)]
    ensures r0 == Fresh() && (faults.createFails || BuiltArchive(fs, dirPath, faults.rejected).None?) ==>
      && ContentDisposition !in r.header
      && ContentType in r.header && r.header[ContentType] == PlainText
      && |r.body| == 1 && r.body[0].Message?
    ensures r0 == Fresh() && !faults.createFails && BuiltArchive(fs, dirPath, faults.rejected).Some? && faults.reopenFails ==>
      && r.status == StatusInternalServerError
      && ContentDisposition in r.header && r.header[ContentDisposition] == Attachment(Base(dirPath) + ".zip")
      && ContentType in r.header && r.header[ContentType] == PlainText
      && r.body == [Message("Error opening generated ZIP file" + "\n")]
  {
    if faults.createFails then Failed(r0, "Could not create ZIP file", StatusInternalServerError)
    else
      match BuiltArchive(fs, dirPath, faults.rejected)
      case None => Failed(r0, "Error creating ZIP", StatusInternalServerError)
      case Some(entries) => Delivered(r0, ScratchName(dirPath), entries, faults.reopenFails)
  }

  /** How the handler classifies the `path` parameter. */
  datatype Resolution = MissingParameter | NotFound | IsFile | IsDirectory

  function Resolve(fs: map<string, Node>, path: string): (c: Resolution)
    ensures c == MissingParameter <==> path == ""
    ensures c == NotFound <==> path != "" && !StatOk(fs, path)
    ensures c == IsDirectory ==> path in fs && fs[path].Dir?
    ensures c == IsFile ==> path in fs && fs[path].File?
  {
    if path == "" then MissingParameter
    else if !StatOk(fs, path) then NotFound
    else if fs[path].Dir? then IsDirectory
    else IsFile
  }

  /** The response the handler leaves. */
  function HandleReply(fs: map<string, Node>, path: string, faults: Faults): (r: Reply)
    ensures r.status == StatusBadRequest <==> path == ""
    ensures r.status == StatusNotFound <==> path != "" && !StatOk(fs, path)
    ensures r.status == StatusBadRequest || r.status == StatusNotFound ==>
      ContentDisposition !in r.header && |r.body| == 1 && r.body[0].Message?
    ensures r.status == StatusOK ==>
      && StatOk(fs, path)
      && ContentType in r.header && ContentDisposition in r.header
      && r.header[ContentType] == (if fs[path].Dir? then ZipType else OctetStream)
      && r.header[ContentDisposition] ==
           Attachment(if fs[path].Dir? then Base(path) + ".zip" else Base(path))
  {
    match Resolve(fs, path)
    case MissingParameter => Failed(Fresh(), "Path is required", StatusBadRequest)
    case NotFound => Failed(Fresh(), "File/Directory does not exist", StatusNotFound)
    case IsDirectory => ArchiveReply(Fresh(), fs, path, faults)
    case IsFile => SendFileReply(Fresh(), fs, path)
  }

  /** The lines one request appends to the log file: what the address call
      leaves, then, once the path has been found, what the path call leaves.
      The file is reopened for each call, so each has its own outcome. */
  function RequestLog(fs: map<string, Node>, path: string, ip: string, hostname: string, host: string,
                      addressLog: LogCall, pathLog: LogCall): (lines: seq<string>)
    ensures Logged(["ip", ip, hostname, host], addressLog.accepts, addressLog.syncOk) <= lines
    ensures path == "" || !StatOk(fs, path) ==> lines <= Record(["ip", ip, hostname, host])
    ensures path != "" && StatOk(fs, path) ==>
      var first := Logged(["ip", ip, hostname, host], addressLog.accepts, addressLog.syncOk);
      && |lines| <= |first| + 2
      && (pathLog.accepts > 0 <==> |lines| > |first|)
      && (pathLog.accepts > 0 ==> lines[|first|] == "filepath:" + path + "\n")
  {
    var first := Logged(["ip", ip, hostname, host], addressLog.accepts, addressLog.syncOk);
    if path == "" || !StatOk(fs, path) then first
    else first + Logged(["filepath:" + path], pathLog.accepts, pathLog.syncOk)
  }

  /** For a directory that exists, with scratch storage that works, the
      archive is sent exactly when no step of the walk fails, and it then
      holds one entry per regular file under the directory, in walk order,
      keyed by its path relative to the directory; in a well-formed tree no
      two entries share a path. */
  lemma DirectoryArchive(fs: map<string, Node>, dirPath: string, faults: Faults)
    requires dirPath in fs && fs[dirPath].Dir?
    requires !faults.createFails && !faults.reopenFails
    ensures var r := ArchiveReply(Fresh(), fs, dirPath, faults);
      && (r.status == StatusOK <==> Healthy(fs[dirPath], [], faults.rejected))
      && (r.status == StatusOK ==> r.body == [Zip(Entries(RegularFiles(fs[dirPath], [])))])
  {
    WalkArchive(fs[dirPath], [], [], faults.rejected);
    assert [] + Entries(RegularFiles(fs[dirPath], [])) == Entries(RegularFiles(fs[dirPath], []));
  }

  /** Every regular file appears in the delivered archive exactly once. */
  lemma ArchiveEntriesUnique(fs: map<string, Node>, dirPath: string, faults: Faults)
    requires dirPath in fs && fs[dirPath].Dir? && WellFormed(fs[dirPath])
    requires ArchiveReply(Fresh(), fs, dirPath, faults).status == StatusOK
    ensures var es := ArchiveReply(Fresh(), fs, dirPath, faults).body[0].entries;
      forall i, j :: 0 <= i < j < |es| ==> es[i].path != es[j].path
  {
    DirectoryArchive(fs, dirPath, faults);
    EntryPathsDistinct(fs[dirPath]);
  }

  /** A directory with no regular file below it (empty, or holding only
      directories) is delivered as an empty archive, not as an error. */
  lemma EmptyDirectoryArchive(fs: map<string, Node>, dirPath: string, faults: Faults)
    requires dirPath in fs && fs[dirPath].Dir? && Healthy(fs[dirPath], [], faults.rejected)
    requires RegularFiles(fs[dirPath], []) == []
    requires !faults.createFails && !faults.reopenFails
    ensures var r := ArchiveReply(Fresh(), fs, dirPath, faults);
      r.status == StatusOK && r.body == [Zip([])]
  {
    NoFilesEmptyArchive(fs[dirPath], [], faults.rejected);
  }

  /** The scratch archive of a directory reached as `parent/name` is
      `name.zip`, whatever the parent: two directories of the same name share
      one scratch file. */
  lemma ScratchNameOfChild(parent: string, name: string)
    requires PlainName(name)
    ensures ScratchName(parent + "/" + name) == name + ".zip"
  {
    BaseOfChild(parent, name);
  }

  /** An empty `path` is answered with 400 whatever the filesystem holds: the
      answer does not depend on any filesystem query. */
  lemma MissingPathIgnoresFilesystem(fs1: map<string, Node>, fs2: map<string, Node>, faults: Faults)
    ensures HandleReply(fs1, "", faults) == HandleReply(fs2, "", faults)
    ensures HandleReply(fs1, "", faults).status == StatusBadRequest
  {
  }

  /** An existing, readable regular file is delivered verbatim under its base
      name as a binary download. */
  lemma FileRequestDelivers(fs: map<string, Node>, path: string, faults: Faults)
    requires path != "" && path in fs && fs[path].File? && fs[path].openOk && !fs[path].readFault
    ensures var r := HandleReply(fs, path, faults);
      && r.status == StatusOK
      && r.header[ContentType] == OctetStream
      && r.header[ContentDisposition] == Attachment(Base(path))
      && r.body == Raw(fs[path].data)
  {
  }

  /** Requesting a directory, with scratch storage that works, yields its
      archive exactly when no step of the walk fails, and the archive then
      holds exactly its regular files, keyed by relative path. */
  lemma DirectoryRequestDelivers(fs: map<string, Node>, path: string, faults: Faults)
    requires path != "" && path in fs && fs[path].Dir?
    requires !faults.createFails && !faults.reopenFails
    ensures var r := HandleReply(fs, path, faults);
      && (r.status == StatusOK <==> Healthy(fs[path], [], faults.rejected))
      && (r.status == StatusOK ==> r.body == [Zip(Entries(RegularFiles(fs[path], [])))])
  {
    DirectoryArchive(fs, path, faults);
  }

  /** When every log write succeeds, a request whose path is found leaves two
      complete records, the address one first; otherwise the address record
      alone (as far as the log file accepts it). */
  lemma RequestLogRecords(fs: map<string, Node>, path: string, ip: string, hostname: string, host: string,
                          addressLog: LogCall, pathLog: LogCall)
    requires addressLog.syncOk && addressLog.accepts >= 5
    requires pathLog.syncOk && pathLog.accepts >= 2
    ensures var lines := RequestLog(fs, path, ip, hostname, host, addressLog, pathLog);
      lines == if path != "" && StatOk(fs, path)
               then Record(["ip", ip, hostname, host]) + Record(["filepath:" + path])
               else Record(["ip", ip, hostname, host])
  {
  }

  /** A log failure need not last: when the file cannot be written during the
      address call but works again for the path call, the log holds the path
      record with no address record before it. */
  lemma PathRecordWithoutAddress(fs: map<string, Node>, path: string, ip: string, hostname: string, host: string,
                                 addressLog: LogCall, pathLog: LogCall)
    requires path != "" && StatOk(fs, path)
    requires addressLog.accepts == 0 && pathLog.syncOk && pathLog.accepts >= 2
    ensures RequestLog(fs, path, ip, hostname, host, addressLog, pathLog) == Record(["filepath:" + path])
  {
  }

  /** The server's state: the filesystem it serves (never written), the files
      it has created in its working directory, and the request log. */
  class Server {
    const fs: map<string, Node>
    /** Scratch files present in the working directory, with the archive
        entries written into each. */
    var scratch: map<string, seq<Entry>>
    /** The name of the log file (a process-wide variable). */
    var logName: string
    /** The strings appended to the log file, in order. */
    var logs: seq<string>

    constructor (fs: map<string, Node>, startName: string)
      ensures this.fs == fs
      ensures scratch == map[] && logName == startName && logs == []
    {
      this.fs := fs;
      scratch := map[];
      logName := startName;
      logs := [];
    }

    /** `os.Stat`: the node's metadata, or `None` when the query fails. */
    method Stat(path: string) returns (info: Option<Node>)
      ensures info.Some? <==> StatOk(fs, path)
      ensures info.Some? ==> info.value == fs[path]
    {
      if path in fs && !fs[path].Unreadable? {
        info := Some(fs[path]);
      } else {
        info := None;
      }
    }

    /** `os.Open` for reading. */
    method Open(path: string) returns (file: Option<Node>)
      ensures file.None? <==> OpenFails(fs, path)
      ensures file.Some? ==> file.value == fs[path] && !file.value.Unreadable?
    {
      if OpenFails(fs, path) {
        file := None;
      } else {
        file := Some(fs[path]);
      }
    }

    /** One `WriteString` on the log file while it accepts `room` more
        writes. */
    method WriteLog(s: string, room: nat) returns (ok: bool)
      modifies this
      ensures ok <==> room > 0
      ensures logs == (if ok then old(logs) + [s] else old(logs))
      ensures scratch == old(scratch) && logName == old(logName)
    {
      ok := room > 0;
      if ok {
        logs := logs + [s];
      }
    }

    /** `log(data...)`: normalise the log file name, append each datum on a
        line, and after a successful sync the separator line. The file
        behaves during this call as `call` says. */
    method Log(data: seq<string>, call: LogCall)
      modifies this
      ensures logName == Normalise(old(logName))
      ensures logs == old(logs) + Logged(data, call.accepts, call.syncOk)
      ensures scratch == old(scratch)
    {
      logName := Join(Split(logName, ' '), '_');
      var room := call.accepts;
      var i := 0;
      while i < |data|
        invariant 0 <= i <= |data| && i <= call.accepts
        invariant logs == old(logs) + Lines(data[..i])
        invariant room == call.accepts - i
        invariant scratch == old(scratch) && logName == Normalise(old(logName))
      {
        var ok := WriteLog(data[i] + "\n", room);
        if !ok {
          return;
        }
        assert Lines(data[..i + 1]) == Lines(data[..i]) + [data[i] + "\n"];
        room := room - 1;
        i := i + 1;
      }
      assert data[..i] == data;
      if !call.syncOk {
        return;
      }
      var ok := WriteLog(Separator + "\n", room);
    }

    /** `sendFile`. */
    method SendFile(w: Response, filePath: string)
      modifies w
      ensures w.Value() == SendFileReply(old(w.Value()), fs, filePath)
    {
      var file := Open(filePath);
      if file.None? {
        w.Error("Could not open file", StatusInternalServerError);
        return;
      }
      w.SetHeader(ContentDisposition, Attachment(Base(filePath)));
      w.SetHeader(ContentType, OctetStream);
      w.Copy(Readable(file.value));
      if ReadFaults(file.value) {
        w.Error("Error sending file", StatusInternalServerError);
      }
    }

    /** The walk callback applied to each step in turn, adding one entry per
        regular file to the scratch archive `zipFile`, until the first error. */
    method AddEntries(zipFile: string, steps: seq<Step>, rejected: set<string>) returns (ok: bool)
      requires zipFile in scratch
      modifies this
      ensures zipFile in scratch && scratch == old(scratch)[zipFile := scratch[zipFile]]
      ensures ok <==> Fold(steps, old(scratch)[zipFile], rejected).Some?
      ensures ok ==> scratch[zipFile] == Fold(steps, old(scratch)[zipFile], rejected).value
      ensures logs == old(logs) && logName == old(logName)
    {
      var i := 0;
      while i < |steps|
        invariant 0 <= i <= |steps|
        invariant zipFile in scratch && scratch == old(scratch)[zipFile := scratch[zipFile]]
        invariant Fold(steps, old(scratch)[zipFile], rejected) == Fold(steps[i..], scratch[zipFile], rejected)
        invariant logs == old(logs) && logName == old(logName)
      {
        var step := steps[i];
        assert steps[i..][0] == step && steps[i..][1..] == steps[i + 1..];
        match step {
          case Fail(_) =>
            return false;
          case Visit(at, node) =>
            match node {
              case Dir(_, _, _) =>
              case Unreadable(_) =>
                return false;
              case File(_, openOk, data, readFault) =>
                if !openOk {
                  return false;
                }
                var rel := RelPath(at);
                if rel in rejected {
                  return false;
                }
                scratch := scratch[zipFile := scratch[zipFile] + [Entry(rel, data)]];
                if readFault {
                  return false;
                }
            }
        }
        i := i + 1;
      }
      ok := true;
    }

    /** The last part of `zipAndSendDirectory`: set the ZIP headers, reopen
        the finished scratch archive and send it. */
    method SendArchive(w: Response, zipFile: string, reopenFails: bool)
      requires zipFile in scratch
      modifies w
      ensures w.Value() == Delivered(old(w.Value()), zipFile, scratch[zipFile], reopenFails)
    {
      w.SetHeader(ContentDisposition, Attachment(zipFile));
      w.SetHeader(ContentType, ZipType);
      if reopenFails {
        w.Error("Error opening generated ZIP file", StatusInternalServerError);
      } else {
        w.Write(Zip(scratch[zipFile]));
      }
    }

    /** `zipAndSendDirectory`: build the archive in a scratch file named after
        the directory, send it, and remove the scratch file on every path once
        it has been created. */
    method ZipAndSendDirectory(w: Response, dirPath: string, faults: Faults)
      modifies this, w
      ensures w.Value() == ArchiveReply(old(w.Value()), fs, dirPath, faults)
      ensures scratch == if faults.createFails then old(scratch) else old(scratch) - {ScratchName(dirPath)}
      ensures logs == old(logs) && logName == old(logName)
    {
      var zipFile := Base(dirPath) + ".zip";
      if faults.createFails {
        w.Error("Could not create ZIP file", StatusInternalServerError);
        return;
      }
      scratch := scratch[zipFile := []];
      var ok := AddEntries(zipFile, WalkFrom(fs, dirPath), faults.rejected);
      if !ok {
        w.Error("Error creating ZIP", StatusInternalServerError);
      } else {
        SendArchive(w, zipFile, faults.reopenFails);
      }
      scratch := scratch - {zipFile};
    }

    /** `handler`: log the caller, reject a missing path, stat it, log it,
        and hand it to the archive builder or the file streamer. */
    method Handle(w: Response, path: string, ip: string, hostname: string, host: string, faults: Faults,
                  addressLog: LogCall, pathLog: LogCall)
      requires w.Value() == Fresh()
      modifies this, w
      ensures w.Value() == HandleReply(fs, path, faults)
      ensures scratch ==
        if Resolve(fs, path) == IsDirectory && !faults.createFails then old(scratch) - {ScratchName(path)}
        else old(scratch)
      ensures logName == Normalise(old(logName))
      ensures logs == old(logs) + RequestLog(fs, path, ip, hostname, host, addressLog, pathLog)
    {
      ghost var logs0, name0 := logs, logName;
      Log(["ip", ip, hostname, host], addressLog);
      ghost var first := Logged(["ip", ip, hostname, host], addressLog.accepts, addressLog.syncOk);
      if path == "" {
        w.Error("Path is required", StatusBadRequest);
        assert RequestLog(fs, path, ip, hostname, host, addressLog, pathLog) == first;
        return;
      }
      var info := Stat(path);
      if info.None? {
        w.Error("File/Directory does not exist", StatusNotFound);
        assert RequestLog(fs, path, ip, hostname, host, addressLog, pathLog) == first;
        return;
      }
      Log(["filepath:" + path], pathLog);
      NormaliseIdempotent(name0);
      assert logs == logs0 + RequestLog(fs, path, ip, hostname, host, addressLog, pathLog);
      if info.value.Dir? {
        assert Resolve(fs, path) == IsDirectory;
        ZipAndSendDirectory(w, path, faults);
      } else {
        assert Resolve(fs, path) == IsFile;
        SendFile(w, path);
      }
    }
  }
}
