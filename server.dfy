/**
 * The receive side of TCPserver.c: handle_client (lines 11-51), which reads a file name,
 * picks a path that does not overwrite anything, and appends every received chunk to that
 * file; and main's choice of the receive buffer size (lines 54-60).
 */
module Server {
  import opened Buffers
  import opened NameResolver

  /** DEFAULT_BUF_SIZE (TCPserver.c:9). */
  const DefaultBufSize: int := 4096

  /** sizeof(file_name) (TCPserver.c:12): the most the name `recv` may return. */
  const NameCapacity: nat := 256

  /** What one `recv` call returns: a positive byte count with its bytes, 0 or -1. */
  datatype Recv = Received(data: seq<byte>) | PeerClosed | RecvError

  /**
   * What successive `recv` calls on one connection return: non-empty chunks, then one final
   * 0 or -1. The first call is the name read (at most 256 bytes); every later chunk is at most
   * `bufSize` bytes. The name read must hold the NUL that ends the name: otherwise the `%s`
   * at line 22 reads bytes `recv` never wrote.
   */
  predicate ValidConnection(conn: seq<Recv>, bufSize: nat)
  {
    |conn| >= 1
    && !conn[|conn| - 1].Received?
    && (forall i :: 0 <= i < |conn| - 1 ==> conn[i].Received? && |conn[i].data| > 0)
    && (conn[0].Received? ==> |conn[0].data| <= NameCapacity && NUL in conn[0].data)
    && (forall i :: 1 <= i < |conn| - 1 ==> |conn[i].data| <= bufSize)
  }

  /** strlen of a buffer that holds a NUL: the index of its first NUL. */
  function CStringLength(buf: seq<byte>): (n: nat)
    requires NUL in buf
    ensures n < |buf| && buf[n] == NUL
    ensures forall i :: 0 <= i < n ==> buf[i] != NUL
  {
    if buf[0] == NUL then 0 else CStringLength(buf[1..]) + 1
  }

  /** The name `%s` reads from the received name buffer. */
  function FileName(buf: seq<byte>): string
    requires NUL in buf
  {
    ToChars(buf[..CStringLength(buf)])
  }

  /** The chunks the receive loop gets after the name read, in order. */
  function DataChunks(conn: seq<Recv>): (chunks: seq<seq<byte>>)
    requires |conn| >= 2
    requires forall i :: 0 <= i < |conn| - 1 ==> conn[i].Received? && |conn[i].data| > 0
    ensures |chunks| == |conn| - 2
    ensures forall i :: 0 <= i < |chunks| ==> chunks[i] == conn[i + 1].data
  {
    seq(|conn| - 2, i requires 0 <= i < |conn| - 2 => conn[i + 1].data)
  }

  /** The bytes the loop at lines 37-40 writes to the file. */
  function Payload(conn: seq<Recv>): seq<byte>
    requires |conn| >= 2
    requires forall i :: 0 <= i < |conn| - 1 ==> conn[i].Received? && |conn[i].data| > 0
  {
    Concat(DataChunks(conn))
  }

  /** The stored size is the sum of the positive `recv` results after the name read. */
  lemma PayloadSize(conn: seq<Recv>)
    requires |conn| >= 2
    requires forall i :: 0 <= i < |conn| - 1 ==> conn[i].Received? && |conn[i].data| > 0
    ensures |Payload(conn)| == TotalLength(DataChunks(conn))
  {
    ConcatLength(DataChunks(conn));
  }

  /**
   * How a session ended, as handle_client reports it: the two `perror` exits, the receive
   * error of line 43, or the success message of lines 45-46 with the path and total_bytes.
   */
  datatype Outcome = Running | NameNotReceived | CreateFailed | ReceiveFailed | Saved(path: string, size: nat)

  /**
   * Paths every working directory holds as directories, whatever the name: "./" (the empty
   * name), "./." and "./..". `access(p, F_OK)` succeeds on them as on any other entry.
   */
  const StandardDirs: set<string> := {"./", "./.", "./.."}

  /**
   * The server's working directory: its files with their contents, and the paths of its
   * directories. `access(p, F_OK)` at TCPserver.c:24 finds both kinds of entry.
   */
  class Directory {
    var files: map<string, seq<byte>>
    var dirs: set<string>

    /** Every path `access` finds. */
    function Namespace(): set<string>
      reads this
    {
      files.Keys + dirs
    }

    /** The standard entries are there, and no path is both a file and a directory. */
    predicate Valid()
      reads this
    {
      StandardDirs <= dirs && dirs !! files.Keys
    }

    constructor (files: map<string, seq<byte>>, subdirs: set<string>)
      requires (subdirs + StandardDirs) !! files.Keys
      ensures this.files == files && dirs == subdirs + StandardDirs
      ensures Valid()
    {
      this.files := files;
      this.dirs := subdirs + StandardDirs;
    }
  }

  /**
   * The receive loop of handle_client (TCPserver.c:35-43): after the name read, every positive
   * `recv` result is written to the file and added to total_bytes, until `recv` returns 0 or -1.
   * Returns the bytes written, total_bytes, that final result and (ghost) each write's data.
   */
  method ReceiveLoop(conn: seq<Recv>, bufSize: nat)
    returns (written: seq<byte>, total: nat, last: Recv, ghost chunks: seq<seq<byte>>)
    requires ValidConnection(conn, bufSize) && conn[0].Received?
    ensures chunks == DataChunks(conn)
    ensures written == Payload(conn) == Concat(chunks)
    ensures total == TotalLength(chunks) == |written|
    ensures forall i :: 0 <= i < |chunks| ==> 0 < |chunks[i]| <= bufSize
    ensures last == conn[|conn| - 1] && !last.Received?
  {
    ghost var all := DataChunks(conn);
    written, total, chunks := [], 0, [];
    var i := 1;
    last := conn[i];
    while last.Received?
      invariant 1 <= i < |conn| && last == conn[i]
      invariant chunks == all[..i - 1]
      invariant written == Concat(chunks)
      invariant total == TotalLength(chunks)
      decreases |conn| - i
    {
      assert all[..i] == all[..i - 1] + [last.data];
      ConcatSnoc(chunks, last.data);
      written := written + last.data;
      total := total + |last.data|;
      chunks := chunks + [last.data];
      i := i + 1;
      last := conn[i];
    }
    assert i == |conn| - 1 && chunks == all;
    ConcatLength(chunks);
  }

  /** One run of handle_client on one accepted connection. */
  class Session {
    var savedFile: string
    /** The bytes written through the open FILE so far. */
    var file: seq<byte>
    /** total_bytes (TCPserver.c:36). */
    var totalBytes: nat
    var outcome: Outcome
    var socketCloses: nat
    var fileCloses: nat
    /** The data of each fwrite call, in order. */
    ghost var writes: seq<seq<byte>>

    ghost predicate Idle()
      reads this
    {
      outcome == Running && file == [] && totalBytes == 0 && writes == []
      && socketCloses == 0 && fileCloses == 0
    }

    constructor ()
      ensures Idle() && savedFile == []
    {
      savedFile := [];
      file := [];
      totalBytes := 0;
      outcome := Running;
      socketCloses := 0;
      fileCloses := 0;
      writes := [];
    }

    /**
     * Lines 29-50 once `fopen` has created `path`: the receive loop writes every chunk after
     * the name read through the FILE, and `fclose` flushes what was written to `path`.
     */
    method Store(dir: Directory, conn: seq<Recv>, bufSize: nat, path: string)
      requires ValidConnection(conn, bufSize) && conn[0].Received?
      requires fileCloses == 0
      modifies this`file, this`totalBytes, this`writes, this`outcome, this`fileCloses, dir`files
      ensures fileCloses == 1
      ensures writes == DataChunks(conn)
      ensures file == Payload(conn) == Concat(writes)
      ensures totalBytes == TotalLength(writes) == |file|
      ensures forall i :: 0 <= i < |writes| ==> 0 < |writes[i]| <= bufSize
      ensures dir.files == old(dir.files)[path := file]
      ensures outcome == (if conn[|conn| - 1].RecvError? then ReceiveFailed else Saved(path, totalBytes))
    {
      dir.files := dir.files[path := []];
      var written, total, last, received := ReceiveLoop(conn, bufSize);
      file, totalBytes, writes := written, total, received;
      outcome := if last.RecvError? then ReceiveFailed else Saved(path, total);
      dir.files := dir.files[path := written];
      fileCloses := 1;
    }

    /**
     * handle_client(client_socket, buf, buf_size). `conn` is what its `recv` calls return,
     * and `createOk` whether `fopen(saved_file, "wb")` succeeds. A created file is empty until
     * fclose flushes what was written through it.
     */
    method HandleClient(dir: Directory, conn: seq<Recv>, bufSize: nat, createOk: bool)
      requires Idle()
      requires ValidConnection(conn, bufSize)
      requires dir.Valid()
      modifies this, dir`files
      ensures dir.Valid()
      ensures socketCloses == 1
      ensures !conn[0].Received? ==>
        outcome == NameNotReceived && savedFile == old(savedFile) && fileCloses == 0
        && file == [] && totalBytes == 0 && writes == [] && dir.files == old(dir.files)
      ensures conn[0].Received? ==>
        savedFile == Resolved(old(dir.Namespace()), FileName(conn[0].data))
        && savedFile !in old(dir.Namespace())
      ensures conn[0].Received? && !createOk ==>
        outcome == CreateFailed && fileCloses == 0
        && file == [] && totalBytes == 0 && writes == [] && dir.files == old(dir.files)
      ensures conn[0].Received? && createOk ==>
        fileCloses == 1
        && writes == DataChunks(conn)
        && file == Payload(conn) == Concat(writes)
        && totalBytes == TotalLength(writes) == |file|
        && (forall i :: 0 <= i < |writes| ==> 0 < |writes[i]| <= bufSize)
        && dir.files == old(dir.files)[savedFile := file]
        && outcome == (if conn[|conn| - 1].RecvError? then ReceiveFailed else Saved(savedFile, totalBytes))
      ensures forall p :: p in old(dir.files) ==> p in dir.files && dir.files[p] == old(dir.files)[p]
    {
      var first := conn[0];
      if !first.Received? {
        outcome := NameNotReceived;
        socketCloses := socketCloses + 1;
        return;
      }
      var name := FileName(first.data);
      var path := Resolve(dir.Namespace(), name);
      savedFile := path;
      if !createOk {
        outcome := CreateFailed;
        socketCloses := socketCloses + 1;
        return;
      }
      Store(dir, conn, bufSize, path);
      socketCloses := socketCloses + 1;
    }
  }

  /**
   * Two connections handled one after another (the accept loop, TCPserver.c:96-110) that send
   * the same name are stored under two different paths, and neither overwrites a file that
   * existed before or names a directory.
   */
  method SequentialSessions(files: map<string, seq<byte>>, subdirs: set<string>,
                            conn1: seq<Recv>, conn2: seq<Recv>, bufSize: nat)
    returns (path1: string, path2: string)
    requires (subdirs + StandardDirs) !! files.Keys
    requires ValidConnection(conn1, bufSize) && conn1[0].Received?
    requires ValidConnection(conn2, bufSize) && conn2[0].Received?
    requires FileName(conn1[0].data) == FileName(conn2[0].data)
    ensures path1 != path2
    ensures path1 !in files && path2 !in files
    ensures path1 !in subdirs + StandardDirs && path2 !in subdirs + StandardDirs
    ensures path1 == Resolved(files.Keys + subdirs + StandardDirs, FileName(conn1[0].data))
  {
    var dir := new Directory(files, subdirs);
    assert dir.Namespace() == files.Keys + subdirs + StandardDirs;
    var s1 := new Session();
    s1.HandleClient(dir, conn1, bufSize, true);
    path1 := s1.savedFile;
    var s2 := new Session();
    s2.HandleClient(dir, conn2, bufSize, true);
    path2 := s2.savedFile;
  }

  /**
   * An empty name (a name read that starts with NUL) gives "./", which is the working
   * directory itself, so the search goes on to the suffixes: the file is "./(1)" when that
   * path is free, and never a directory.
   */
  lemma EmptyNameIsSuffixed(namespace: set<string>)
    requires StandardDirs <= namespace
    ensures Resolved(namespace, "") != "./" && Resolved(namespace, "") !in namespace
    ensures "./(1)" !in namespace ==> Resolved(namespace, "") == "./(1)"
  {
    assert BasePath("") == "./";
    ResolvedIsFree(namespace, "");
    if "./(1)" !in namespace {
      assert Candidate("", 1) == "./(1)";
      ResolvedUnique(namespace, "", 1);
    }
  }

  /** main's arguments as written (lines 54-60): None is the usage exit; otherwise buf_size. */
  function BufSizeAsWritten(argc: int, bufArg: int): (r: Option<int>)
    ensures r.None? <==> argc < 3
    ensures argc == 3 ==> r == Some(bufArg)
    ensures argc > 3 ==> r == Some(DefaultBufSize)
  {
    if argc < 3 then None else if argc == 3 then Some(bufArg) else Some(DefaultBufSize)
  }

  /**
   * The usage text offers "<port-number> [bufSize]", but a port alone is refused, so the
   * default of line 60 is only reached when extra arguments are given.
   */
  lemma PortAloneIsRefused(bufArg: int)
    ensures BufSizeAsWritten(2, bufArg) == None
    ensures BufSizeAsWritten(5, bufArg) == Some(DefaultBufSize)
  {
  }

  /** main's arguments as the usage text describes them: the buffer size is optional. */
  function BufSize(argc: int, bufArg: int): (r: Option<int>)
    ensures r.Some? <==> argc >= 2
    ensures argc == 3 ==> r == Some(bufArg)
    ensures argc == 2 ==> r == Some(DefaultBufSize)
  {
    if argc < 2 then None else if argc == 3 then Some(bufArg) else Some(DefaultBufSize)
  }

  /** Both forms in the usage text are accepted, and they agree with main wherever main accepts. */
  lemma BufSizeAcceptsUsage(bufArg: int)
    ensures BufSize(2, bufArg) == Some(DefaultBufSize)
    ensures BufSize(3, bufArg) == Some(bufArg)
    ensures forall argc :: BufSizeAsWritten(argc, bufArg).Some? ==> BufSize(argc, bufArg) == BufSizeAsWritten(argc, bufArg)
  {
  }
}
