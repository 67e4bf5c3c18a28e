/** File tunnel writes with backup, validation and rollback
    (mac-mgmt-agent/src/file_tunnels.rs `write_file`), and the chunked read and
    write sessions around them. */
module FileWrites {
  import opened Prelude

  newtype byte = x: int | 0 <= x < 256
  type Bytes = seq<byte>

  const MAX_FILE_SIZE: nat := 10 * 1024 * 1024

  datatype File = File(content: Bytes, mtime: int)

  /** Real files by resolved path, and the randomly named temporary files beside them. */
  datatype Name = Real(path: string) | Temp(id: nat)

  type Disk = map<Name, File>

  /** The tunnel's configuration, already evaluated for the request's path. */
  datatype Tunnel = Tunnel(
    writable: bool,
    folder: bool,
    included: string -> bool,
    allowed: string -> bool,
    validated: string -> bool,
    passes: (string, Bytes) -> bool)

  datatype Request = Request(path: string, content: Bytes, expectedMtime: Option<int>)

  /** What the operating system does during one write: which steps succeed, what a
      failed temporary write leaves behind, and the clock at the two file creations. */
  datatype System = System(
    created: bool,
    wrote: bool,
    partial: Bytes,
    copied: bool,
    renamed: bool,
    rolledBack: bool,
    tidied: bool,
    clock: int,
    copyClock: int)

  /** HTTP-like failure codes. */
  type Status = int

  /** Why a request is turned away before anything is touched. */
  function Refusal(files: map<string, File>, tunnel: Tunnel, req: Request): Option<Status> {
    if !tunnel.writable then Some(403)
    else if tunnel.folder && !tunnel.included(req.path) then Some(403)
    else if !tunnel.allowed(req.path) then Some(403)
    else if |req.content| > MAX_FILE_SIZE then Some(413)
    else if req.expectedMtime.Some? && req.path in files
            && files[req.path].mtime != req.expectedMtime.value then Some(409)
    else None
  }

  predicate Rejected(tunnel: Tunnel, req: Request) {
    tunnel.validated(req.path) && !tunnel.passes(req.path, req.content)
  }

  /** The real files of a disk. */
  function Files(disk: Disk): map<string, File> {
    map name | name in disk && name.Real? :: name.path := disk[name]
  }

  /** The new real files and the answer, as one transaction. */
  function Transaction(files: map<string, File>, tunnel: Tunnel, req: Request, os: System)
    : (Result<int, Status>, map<string, File>)
  {
    var refusal := Refusal(files, tunnel, req);
    var present := req.path in files;
    if refusal.Some? then
      (Err(refusal.value), files)
    else if !os.created || !os.wrote || (present && !os.copied) || !os.renamed then
      (Err(500), files)
    else
      var written := files[req.path := File(req.content, os.clock)];
      if !Rejected(tunnel, req) then
        (Ok(os.clock), written)
      else if !os.rolledBack then
        (Err(422), written)
      else if present then
        (Err(422), files[req.path := File(files[req.path].content, os.copyClock)])
      else
        (Err(422), files)
  }

  /** Temporary files are invisible among the real ones. */
  lemma FilesIgnoreTemps(disk: Disk, id: nat, file: File)
    ensures Files(disk[Temp(id) := file]) == Files(disk) == Files(disk - {Temp(id)})
  {
  }

  lemma FilesPut(disk: Disk, path: string, file: File)
    ensures Files(disk[Real(path) := file]) == Files(disk)[path := file]
  {
  }

  lemma FilesCut(disk: Disk, path: string)
    ensures Files(disk - {Real(path)}) == Files(disk) - {path}
  {
  }

  class Folder {
    var disk: Disk
    var nextTemp: nat

    ghost predicate Valid()
      reads this
    {
      forall id: nat :: Temp(id) in disk ==> id < nextTemp
    }

    constructor (initial: map<string, File>)
      ensures Valid() && Files(disk) == initial
    {
      disk := map path | path in initial :: Real(path) := initial[path];
      nextTemp := 0;
    }

    method WriteFile(tunnel: Tunnel, req: Request, os: System) returns (answer: Result<int, Status>)
      requires Valid()
      modifies this
      ensures Valid()
      ensures (answer, Files(disk)) ==
              Transaction(old(Files(disk)), tunnel, req, os)
    {
      var refusal := Refusal(Files(disk), tunnel, req);
      if refusal.Some? {
        return Err(refusal.value);
      }
      var target := Real(req.path);
      if !os.created {
        return Err(500);
      }
      var tmp := FreshTemp();
      var tmpFile := File(if os.wrote then req.content else os.partial, os.clock);
      FilesIgnoreTemps(disk, tmp.id, tmpFile);
      disk := disk[tmp := tmpFile];
      if !os.wrote {
        return Err(500);
      }
      var hadOriginal := target in disk;
      var backup: Option<Name> := None;
      if hadOriginal {
        if !os.copied {
          Tidy(tmp, os);
          return Err(500);
        }
        var copy := FreshTemp();
        FilesIgnoreTemps(disk, copy.id, File(disk[target].content, os.copyClock));
        disk := disk[copy := File(disk[target].content, os.copyClock)];
        backup := Some(copy);
      }
      answer := Commit(tunnel, req, os, tmp, backup);
    }

    /** The second half: rename over the target, validate, roll back or tidy up. */
    method Commit(tunnel: Tunnel, req: Request, os: System, tmp: Name, backup: Option<Name>) returns (answer: Result<int, Status>)
      requires Valid() && os.created && os.wrote && Refusal(Files(disk), tunnel, req).None?
      requires tmp.Temp? && tmp in disk && disk[tmp] == File(req.content, os.clock)
      requires backup.Some? <==> req.path in Files(disk)
      requires backup.Some? ==>
                 && os.copied && backup.value.Temp? && backup.value != tmp && backup.value in disk
                 && disk[backup.value] == File(Files(disk)[req.path].content, os.copyClock)
      modifies this
      ensures Valid()
      ensures (answer, Files(disk)) == Transaction(old(Files(disk)), tunnel, req, os)
    {
      var target := Real(req.path);
      ghost var was := Files(disk);
      if !os.renamed {
        Tidy(tmp, os);
        return Err(500);
      }
      Rename(tmp, target);
      ghost var written := Files(disk);
      if Rejected(tunnel, req) {
        if os.rolledBack {
          if backup.Some? {
            Rename(backup.value, target);
            assert Files(disk) == was[req.path := File(was[req.path].content, os.copyClock)];
          } else {
            FilesCut(disk, req.path);
            disk := disk - {target};
            assert Files(disk) == was;
          }
        }
        return Err(422);
      }
      if backup.Some? {
        Tidy(backup.value, os);
      }
      return Ok(os.clock);
    }

    /** `std::fs::rename` of a temporary file over a real one. */
    method Rename(from: Name, to: Name)
      requires Valid() && from.Temp? && to.Real? && from in disk
      modifies this`disk
      ensures Valid() && disk == (old(disk) - {from})[to := old(disk)[from]]
      ensures Files(disk) == old(Files(disk))[to.path := old(disk)[from]]
    {
      FilesIgnoreTemps(disk, from.id, disk[from]);
      FilesPut(disk - {from}, to.path, disk[from]);
      disk := (disk - {from})[to := disk[from]];
    }

    /** A name no file has yet. */
    method FreshTemp() returns (name: Name)
      requires Valid()
      modifies this`nextTemp
      ensures Valid() && name == Temp(old(nextTemp)) && name !in disk && nextTemp == old(nextTemp) + 1
    {
      name := Temp(nextTemp);
      nextTemp := nextTemp + 1;
    }

    /** `let _ = remove_file(..)`: may fail, and nobody looks. */
    method Tidy(name: Name, os: System)
      requires Valid() && name.Temp?
      modifies this`disk
      ensures Valid() && Files(disk) == old(Files(disk))
    {
      if os.tidied {
        FilesIgnoreTemps(disk, name.id, File([], 0));
        disk := disk - {name};
      }
    }
  }

  // ---- one write ---------------------------------------------------------------

  function Contents(files: map<string, File>): map<string, Bytes> {
    map path | path in files :: files[path].content
  }

  /** The filters let the request through: the tunnel can be written, a folder's include
      filter and the write filter match. */
  predicate IsPermitted(tunnel: Tunnel, req: Request) {
    tunnel.writable && (tunnel.folder ==> tunnel.included(req.path)) && tunnel.allowed(req.path)
  }

  /** The client has seen this version, or did not say which one it saw. */
  predicate IsCurrent(files: map<string, File>, req: Request) {
    req.expectedMtime.None? || req.path !in files || req.expectedMtime == Some(files[req.path].mtime)
  }

  /** Nothing speaks against the request: it is permitted, at most 10 MiB and current. */
  predicate IsAdmitted(files: map<string, File>, tunnel: Tunnel, req: Request) {
    IsPermitted(tunnel, req) && |req.content| <= 10_485_760 && IsCurrent(files, req)
  }

  /** The call gets as far as renaming the new bytes over the target. */
  predicate Replaces(files: map<string, File>, tunnel: Tunnel, req: Request, os: System) {
    IsAdmitted(files, tunnel, req) && os.created && os.wrote && (req.path in files ==> os.copied) && os.renamed
  }

  /** Every answer in terms of what the call is given, and that only an admitted request
      changes anything. */
  lemma AnswersAreExact(files: map<string, File>, tunnel: Tunnel, req: Request, os: System)
    ensures var (answer, after) := Transaction(files, tunnel, req, os);
            && (answer == Err(403) <==> !IsPermitted(tunnel, req))
            && (answer == Err(413) <==> IsPermitted(tunnel, req) && |req.content| > 10_485_760)
            && (answer == Err(409) <==>
                IsPermitted(tunnel, req) && |req.content| <= 10_485_760 && !IsCurrent(files, req))
            && (answer == Err(500) <==> IsAdmitted(files, tunnel, req) && !Replaces(files, tunnel, req, os))
            && (answer == Err(422) <==>
                Replaces(files, tunnel, req, os) && tunnel.validated(req.path) && !tunnel.passes(req.path, req.content))
            && (answer == Ok(os.clock) <==>
                Replaces(files, tunnel, req, os) && (tunnel.validated(req.path) ==> tunnel.passes(req.path, req.content)))
            && (after != files ==> IsAdmitted(files, tunnel, req))
  {
  }

  /** In terms of what the call is given: it succeeds exactly when it replaces the target
      and the validator does not reject the bytes, which then are the target's. The bytes
      of all files are as they were exactly when it does not replace the target, or the
      rejected bytes are rolled back, or they are the ones that were there. No other file
      changes in any case. */
  lemma WriteIsTransactional(files: map<string, File>, tunnel: Tunnel, req: Request, os: System)
    ensures var (answer, after) := Transaction(files, tunnel, req, os);
            && (answer.Ok? <==> Replaces(files, tunnel, req, os) && !Rejected(tunnel, req))
            && (answer.Ok? ==> Contents(after) == Contents(files)[req.path := req.content])
            && (Contents(after) == Contents(files) <==>
                || !Replaces(files, tunnel, req, os)
                || (Rejected(tunnel, req) && os.rolledBack)
                || (req.path in files && files[req.path].content == req.content))
            && (forall path :: path != req.path ==> (path in after <==> path in files))
            && (forall path :: path != req.path && path in files ==> after[path] == files[path])
  {
    var (answer, after) := Transaction(files, tunnel, req, os);
    AnswersAreExact(files, tunnel, req, os);
    if Replaces(files, tunnel, req, os) && !(Rejected(tunnel, req) && os.rolledBack) {
      assert after == files[req.path := File(req.content, os.clock)];
      assert Contents(after) == Contents(files)[req.path := req.content];
      assert Contents(after)[req.path] == req.content;
    } else {
      assert Contents(after) == Contents(files);
    }
  }

  /** A rejected write puts the old bytes back under the time of the backup copy: a
      client that kept its modification time is then told "modified" exactly unless the
      copy was made in that same second. */
  lemma RollbackMovesMtime(files: map<string, File>, tunnel: Tunnel, req: Request, os: System, retry: Request, again: System)
    requires req.path in files && Replaces(files, tunnel, req, os) && Rejected(tunnel, req) && os.rolledBack
    requires retry.path == req.path && |retry.content| <= 10_485_760
    requires retry.expectedMtime == Some(files[req.path].mtime)
    ensures var restored := Transaction(files, tunnel, req, os).1;
            && restored == files[req.path := File(files[req.path].content, os.copyClock)]
            && (Transaction(restored, tunnel, retry, again).0 == Err(409) <==> os.copyClock != files[req.path].mtime)
  {
    AnswersAreExact(files, tunnel, req, os);
    AnswersAreExact(Transaction(files, tunnel, req, os).1, tunnel, retry, again);
  }

  /** Two clients that read the same version: once the first one's write is accepted,
      the second is refused, exactly unless the first landed in the very second the
      version was made. */
  lemma SecondWriterIsRefused(files: map<string, File>, tunnel: Tunnel, first: Request, os: System, second: Request, again: System)
    requires Replaces(files, tunnel, first, os) && !Rejected(tunnel, first)
    requires second.path == first.path && |second.content| <= 10_485_760 && second.expectedMtime.Some?
    ensures var written := Transaction(files, tunnel, first, os).1;
            Transaction(written, tunnel, second, again).0 == Err(409) <==> os.clock != second.expectedMtime.value
  {
    AnswersAreExact(files, tunnel, first, os);
    AnswersAreExact(Transaction(files, tunnel, first, os).1, tunnel, second, again);
  }

  // ---- whole runs ----------------------------------------------------------------

  datatype Call = Call(req: Request, os: System)

  function AfterCalls(files: map<string, File>, tunnel: Tunnel, calls: seq<Call>): map<string, File>
    decreases |calls|
  {
    if calls == [] then files
    else AfterCalls(Transaction(files, tunnel, calls[0].req, calls[0].os).1, tunnel, calls[1..])
  }

  predicate AllPass(files: map<string, File>, tunnel: Tunnel) {
    forall path :: path in files && tunnel.validated(path) ==> tunnel.passes(path, files[path].content)
  }

  predicate IsAccepted(files: map<string, File>, tunnel: Tunnel, c: Call) {
    Replaces(files, tunnel, c.req, c.os) && !Rejected(tunnel, c.req)
  }

  /** The last accepted content of `path` in a run, or its content at the start. */
  function LastAccepted(files: map<string, File>, tunnel: Tunnel, calls: seq<Call>, path: string, start: Option<Bytes>): Option<Bytes>
    decreases |calls|
  {
    if calls == [] then
      start
    else
      var c := calls[0];
      LastAccepted(Transaction(files, tunnel, c.req, c.os).1, tunnel, calls[1..], path,
                   if IsAccepted(files, tunnel, c) && c.req.path == path then Some(c.req.content) else start)
  }

  function ContentAt(files: map<string, File>, path: string): Option<Bytes> {
    if path in files then Some(files[path].content) else None
  }

  /** Over every run of writes, with any faults as long as rollbacks succeed: each
      file holds its last accepted content, and a folder whose validated files all
      pass keeps passing. */
  lemma {:induction false} RunsAreTransactional(files: map<string, File>, tunnel: Tunnel, calls: seq<Call>)
    requires forall c :: c in calls ==> c.os.rolledBack
    ensures AllPass(files, tunnel) ==> AllPass(AfterCalls(files, tunnel, calls), tunnel)
    ensures forall path :: ContentAt(AfterCalls(files, tunnel, calls), path)
                        == LastAccepted(files, tunnel, calls, path, ContentAt(files, path))
    decreases |calls|
  {
    if calls != [] {
      var c := calls[0];
      var after := Transaction(files, tunnel, c.req, c.os).1;
      AnswersAreExact(files, tunnel, c.req, c.os);
      RunsAreTransactional(after, tunnel, calls[1..]);
      forall path
        ensures ContentAt(after, path) ==
                if IsAccepted(files, tunnel, c) && c.req.path == path then Some(c.req.content) else ContentAt(files, path)
      {
      }
    }
  }

  /** Over every run, failed rollbacks included, nothing happens to a file the filters keep
      out; so nothing at all happens through a read-only tunnel. */
  lemma {:induction false} UnpermittedNeverChanges(files: map<string, File>, tunnel: Tunnel, calls: seq<Call>, path: string)
    requires forall c :: c in calls && c.req.path == path ==> !IsPermitted(tunnel, c.req)
    ensures var after := AfterCalls(files, tunnel, calls);
            (path in after <==> path in files) && (path in files ==> after[path] == files[path])
    decreases |calls|
  {
    if calls != [] {
      var c := calls[0];
      assert c in calls;
      AnswersAreExact(files, tunnel, c.req, c.os);
      WriteIsTransactional(files, tunnel, c.req, c.os);
      UnpermittedNeverChanges(Transaction(files, tunnel, c.req, c.os).1, tunnel, calls[1..], path);
    }
  }

  lemma ReadOnlyNeverChanges(files: map<string, File>, tunnel: Tunnel, calls: seq<Call>)
    requires !tunnel.writable
    ensures AfterCalls(files, tunnel, calls) == files
  {
    forall path
      ensures var after := AfterCalls(files, tunnel, calls);
              (path in after <==> path in files) && (path in files ==> after[path] == files[path])
    {
      UnpermittedNeverChanges(files, tunnel, calls, path);
    }
  }

  // ---- sessions --------------------------------------------------------------------

  const STREAM_CHUNK_SIZE: nat := 1_048_576

  datatype Frame = Binary(data: Bytes) | End | Message

  /** What a read session sends after its header: `content.chunks(size)`, then the end. */
  function Chunks(content: Bytes, size: nat): seq<Frame>
    requires size > 0
    decreases |content|
  {
    if content == [] then [End]
    else if |content| <= size then [Binary(content), End]
    else [Binary(content[..size])] + Chunks(content[size..], size)
  }

  datatype Received = Complete(content: Bytes) | TooLarge | Broken

  /** What a write session makes of the frames; running out of frames is a clean
      close, a read error aborts. */
  function Assemble(frames: seq<Option<Frame>>, content: Bytes): Received
    decreases |frames|
  {
    if frames == [] then Complete(content)
    else match frames[0]
      case None => Broken
      case Some(Binary(data)) =>
        if |content| + |data| > MAX_FILE_SIZE then TooLarge else Assemble(frames[1..], content + data)
      case Some(_) => Complete(content)
  }

  method ReceiveContent(frames: seq<Option<Frame>>) returns (received: Received)
    ensures received == Assemble(frames, [])
  {
    var content: Bytes := [];
    var i := 0;
    while i < |frames|
      invariant 0 <= i <= |frames|
      invariant Assemble(frames, []) == Assemble(frames[i..], content)
    {
      assert frames[i..][1..] == frames[i + 1..];
      match frames[i] {
        case None => return Broken;
        case Some(Binary(data)) =>
          if |content| + |data| > MAX_FILE_SIZE {
            return TooLarge;
          }
          content := content + data;
        case Some(_) => return Complete(content);
      }
      i := i + 1;
    }
    return Complete(content);
  }

  /** The bytes of some binary frames, one after the other. */
  function Data(frames: seq<Option<Frame>>): Bytes
    requires forall f :: f in frames ==> f.Some? && f.value.Binary?
  {
    if frames == [] then [] else frames[0].value.data + Data(frames[1..])
  }

  /** What a write session receives, by its first `n` frames being binary and the next, if
      there is one, not: too much, or the bytes up to a frame that ends them or the end of
      the stream, or nothing because reading failed. */
  lemma {:induction false} ReceivedIsExact(frames: seq<Option<Frame>>, n: nat, got: Bytes)
    requires n <= |frames| && (forall f :: f in frames[..n] ==> f.Some? && f.value.Binary?)
    requires n < |frames| ==> !(frames[n].Some? && frames[n].value.Binary?)
    requires |got| <= 10_485_760
    ensures Assemble(frames, got) ==
            if |got| + |Data(frames[..n])| > 10_485_760 then TooLarge
            else if n < |frames| && frames[n].None? then Broken
            else Complete(got + Data(frames[..n]))
    decreases n
  {
    if n == 0 {
      assert got + [] == got;
    } else {
      assert frames[..n][0] == frames[0] && frames[0] in frames[..n];
      var data, rest := frames[0].value.data, frames[1..];
      assert frames[..n][1..] == rest[..n - 1];
      assert forall f :: f in rest[..n - 1] ==> f in frames[..n];
      if |got| + |data| <= 10_485_760 {
        ReceivedIsExact(rest, n - 1, got + data);
        assert got + data + Data(rest[..n - 1]) == got + (data + Data(rest[..n - 1]));
      }
    }
  }

  function Delivered(frames: seq<Frame>): seq<Option<Frame>> {
    seq(|frames|, i requires 0 <= i < |frames| => Some(frames[i]))
  }

  /** Piping a read session into a write session moves the file unchanged, in chunks
      no larger than the limit, whatever follows on the stream; too large a file is refused. */
  lemma {:induction false} ChunksReassemble(content: Bytes, size: nat, got: Bytes, more: seq<Option<Frame>>)
    requires size > 0 && |got| <= MAX_FILE_SIZE
    ensures Assemble(Delivered(Chunks(content, size)) + more, got) ==
            if |got| + |content| <= MAX_FILE_SIZE then Complete(got + content) else TooLarge
    ensures forall i :: 0 <= i < |Chunks(content, size)| && Chunks(content, size)[i].Binary? ==>
              0 < |Chunks(content, size)[i].data| <= size
    decreases |content|
  {
    var frames := Chunks(content, size);
    var stream := Delivered(frames) + more;
    if content == [] {
      assert got + content == got;
    } else if |content| <= size {
      assert stream[1..][0] == Some(End);
    } else {
      var data, rest := content[..size], content[size..];
      assert frames[1..] == Chunks(rest, size);
      assert stream[1..] == Delivered(frames[1..]) + more;
      if |got| + |data| <= MAX_FILE_SIZE {
        ChunksReassemble(rest, size, got + data, more);
        assert got + data + rest == got + content;
      } else {
        ChunksReassemble(rest, size, [], more);
      }
    }
  }

  /** Which bytes each frame of a read session holds: the `i`-th chunk of the size, the last
      one shorter if need be, and the end after them. */
  lemma {:induction false} ChunkIs(content: Bytes, size: nat, i: nat)
    requires size > 0 && i * size < |content|
    ensures var frames := Chunks(content, size);
            && i + 1 < |frames|
            && frames[i] == Binary(if (i + 1) * size < |content| then content[i * size..(i + 1) * size] else content[i * size..])
            && ((i + 1) * size >= |content| ==> |frames| == i + 2 && frames[i + 1] == End)
    decreases i
  {
    if i > 0 {
      var rest := content[size..];
      assert i * size == (i - 1) * size + size && (i + 1) * size == i * size + size;
      assert size <= i * size;
      ChunkIs(rest, size, i - 1);
      assert Chunks(content, size) == [Binary(content[..size])] + Chunks(rest, size);
      assert rest[(i - 1) * size..] == content[i * size..];
      if (i + 1) * size < |content| {
        assert rest[(i - 1) * size..i * size] == content[i * size..(i + 1) * size];
      }
    } else {
      assert content[0..] == content;
    }
  }

  /** The two sessions as they are set up: a file read in chunks of the stream size and
      written back arrives unchanged exactly when it
      is within the size limit. */
  lemma PipedFileArrives(content: Bytes, more: seq<Option<Frame>>)
    ensures var received := Assemble(Delivered(Chunks(content, STREAM_CHUNK_SIZE)) + more, []);
            && (received == Complete(content) <==> |content| <= MAX_FILE_SIZE)
            && (received == TooLarge <==> |content| > MAX_FILE_SIZE)
  {
    ChunksReassemble(content, STREAM_CHUNK_SIZE, [], more);
    assert [] + content == content;
  }
}
