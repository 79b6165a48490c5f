/**
 * The send side, TCPclient.c main (lines 10-81): split "<ip>:<port>", open the file, connect,
 * send the file name with its NUL, then send the file in blocks of at most bufSize bytes as
 * `fread` returns them.
 */
module Client {
  import opened Buffers

  /** DEFAULT_BUF_SIZE (TCPclient.c:8). */
  const DefaultBufSize: nat := 4096

  /** The block size of line 18: argv[3] when exactly four arguments are given. */
  function BlockSize(argc: int, bufArg: int): (r: int)
    ensures argc == 4 ==> r == bufArg
    ensures argc != 4 ==> r == DefaultBufSize
  {
    if argc == 4 then bufArg else DefaultBufSize
  }

  /**
   * strchr(ipPort, ':') followed by writing '\0' over the colon (lines 21-28): the host is the
   * text before the first colon and the port text everything after it; None when there is no
   * colon.
   */
  function SplitAddress(ipPort: string): (r: Option<(string, string)>)
    ensures r.None? <==> ':' !in ipPort
    ensures r.Some? ==> ipPort == r.value.0 + ":" + r.value.1 && ':' !in r.value.0
  {
    if ipPort == [] then None
    else if ipPort[0] == ':' then Some(([], ipPort[1..]))
    else
      match SplitAddress(ipPort[1..])
      case None => None
      case Some((host, port)) => Some(([ipPort[0]] + host, port))
  }

  /** Splitting undoes joining a colon-free host and any port text with ':'. */
  lemma {:induction false} SplitAddressOfJoin(host: string, port: string)
    requires ':' !in host
    ensures SplitAddress(host + ":" + port) == Some((host, port))
  {
    var s := host + ":" + port;
    if host == [] {
      assert s[0] == ':' && s[1..] == port;
    } else {
      assert s[0] == host[0] && s[1..] == host[1..] + ":" + port;
      SplitAddressOfJoin(host[1..], port);
      assert [host[0]] + host[1..] == host;
    }
  }

  /** The name message of line 66: the name's bytes and one NUL, strlen + 1 bytes in all. */
  function NameMessage(fileName: string): (m: seq<byte>)
    requires IsCString(fileName)
    ensures |m| == |fileName| + 1
    ensures m[|fileName|] == NUL
    ensures forall i :: 0 <= i < |fileName| ==> m[i] != NUL
    ensures ToChars(m[..|fileName|]) == fileName
  {
    CharsOfBytes(fileName);
    assert (ToBytes(fileName) + [NUL])[..|fileName|] == ToBytes(fileName);
    ToBytes(fileName) + [NUL]
  }

  function Min(a: int, b: int): int
  {
    if a < b then a else b
  }

  /**
   * What successive `fread(buffer, 1, bufSize, file)` calls return on a regular file holding
   * `contents`, up to the first that returns 0: each call returns min(bufSize, remaining).
   */
  function FreadBlocks(contents: seq<byte>, bufSize: nat): (blocks: seq<seq<byte>>)
    ensures blocks == [] <==> bufSize == 0 || contents == []
    ensures blocks != [] ==> blocks[0] == contents[..Min(bufSize, |contents|)]
    decreases |contents|
  {
    if bufSize == 0 || contents == [] then []
    else
      var n := Min(bufSize, |contents|);
      [contents[..n]] + FreadBlocks(contents[n..], bufSize)
  }

  /** The blocks, in order, are the file. */
  lemma {:induction false} FreadBlocksConcat(contents: seq<byte>, bufSize: nat)
    requires bufSize > 0
    ensures Concat(FreadBlocks(contents, bufSize)) == contents
    decreases |contents|
  {
    if contents != [] {
      var n := Min(bufSize, |contents|);
      FreadBlocksConcat(contents[n..], bufSize);
      ConcatCons(contents[..n], FreadBlocks(contents[n..], bufSize));
      assert contents[..n] + contents[n..] == contents;
    }
  }

  /** Every block is non-empty and at most bufSize bytes; all but the last are full. */
  lemma {:induction false} FreadBlocksSizes(contents: seq<byte>, bufSize: nat)
    ensures forall i :: 0 <= i < |FreadBlocks(contents, bufSize)| ==>
      0 < |FreadBlocks(contents, bufSize)[i]| <= bufSize
    ensures forall i :: 0 <= i < |FreadBlocks(contents, bufSize)| - 1 ==>
      |FreadBlocks(contents, bufSize)[i]| == bufSize
    decreases |contents|
  {
    if bufSize > 0 && contents != [] {
      var n := Min(bufSize, |contents|);
      FreadBlocksSizes(contents[n..], bufSize);
      var rest := FreadBlocks(contents[n..], bufSize);
      assert n < bufSize ==> rest == [];
    }
  }

  lemma {:induction false} MulAtLeast(n: int, b: int)
    requires n >= 1 && b > 0
    ensures n * b >= b
  {
    if n > 1 {
      MulAtLeast(n - 1, b);
      assert n * b == (n - 1) * b + b;
    }
  }

  /** Euclidean division is determined by quotient and remainder. */
  lemma DivUnique(x: int, b: int, k: int, r: int)
    requires 0 < b && 0 <= r < b && x == k * b + r
    ensures x / b == k
  {
    var q, m := x / b, x % b;
    assert x == q * b + m;
    if q > k {
      assert (q - k) * b == q * b - k * b;
      MulAtLeast(q - k, b);
    } else if q < k {
      assert (k - q) * b == k * b - q * b;
      MulAtLeast(k - q, b);
    }
  }

  lemma DivStep(x: int, b: int)
    requires 0 < b <= x
    ensures (x - b) / b + 1 == x / b
  {
    var q, r := (x - b) / b, (x - b) % b;
    assert x - b == q * b + r;
    assert x == (q + 1) * b + r;
    DivUnique(x, b, q + 1, r);
  }

  /** An empty file sends nothing; otherwise there are ceil(N / bufSize) blocks. */
  lemma {:induction false} FreadBlocksCount(contents: seq<byte>, bufSize: nat)
    requires bufSize > 0
    ensures |FreadBlocks(contents, bufSize)| == (|contents| + bufSize - 1) / bufSize
    ensures FreadBlocks(contents, bufSize) == [] <==> contents == []
    decreases |contents|
  {
    if contents != [] {
      var n := Min(bufSize, |contents|);
      FreadBlocksCount(contents[n..], bufSize);
      if n == bufSize {
        DivStep(|contents| + bufSize - 1, bufSize);
      } else {
        DivUnique(|contents| + bufSize - 1, bufSize, 1, |contents| - 1);
      }
    }
  }

  /** One more `fread` call from position pos. */
  lemma FreadBlocksFrom(contents: seq<byte>, bufSize: nat, pos: nat)
    requires pos < |contents| && bufSize > 0
    ensures var n := Min(bufSize, |contents| - pos);
      FreadBlocks(contents[pos..], bufSize)
      == [contents[pos..pos + n]] + FreadBlocks(contents[pos + n..], bufSize)
  {
    var rest, n := contents[pos..], Min(bufSize, |contents| - pos);
    assert rest[..n] == contents[pos..pos + n];
    assert rest[n..] == contents[pos + n..];
  }

  /** What the loop below promises about the blocks, gathered for one file and block size. */
  lemma FreadBlocksSummary(contents: seq<byte>, bufSize: nat)
    ensures var blocks := FreadBlocks(contents, bufSize);
      (bufSize > 0 ==> Concat(blocks) == contents)
      && (forall i :: 0 <= i < |blocks| ==> 0 < |blocks[i]| <= bufSize)
      && (forall i :: 0 <= i < |blocks| - 1 ==> |blocks[i]| == bufSize)
  {
    FreadBlocksSizes(contents, bufSize);
    if bufSize > 0 {
      FreadBlocksConcat(contents, bufSize);
    }
  }

  /**
   * The loop of lines 71-73: read a block, send it, until `fread` returns 0. The blocks are
   * returned in the order they are sent.
   */
  method SendContents(contents: seq<byte>, bufSize: nat) returns (blocks: seq<seq<byte>>)
    ensures blocks == FreadBlocks(contents, bufSize)
    ensures bufSize > 0 ==> Concat(blocks) == contents
    ensures forall i :: 0 <= i < |blocks| ==> 0 < |blocks[i]| <= bufSize
    ensures forall i :: 0 <= i < |blocks| - 1 ==> |blocks[i]| == bufSize
    ensures bufSize == 0 || contents == [] <==> blocks == []
  {
    blocks := [];
    var pos := 0;
    var bytesRead := Min(bufSize, |contents|);
    while bytesRead > 0
      invariant 0 <= pos <= |contents|
      invariant bytesRead == Min(bufSize, |contents| - pos)
      invariant blocks + FreadBlocks(contents[pos..], bufSize) == FreadBlocks(contents, bufSize)
      decreases |contents| - pos
    {
      FreadBlocksFrom(contents, bufSize, pos);
      blocks := blocks + [contents[pos..pos + bytesRead]];
      pos := pos + bytesRead;
      bytesRead := Min(bufSize, |contents| - pos);
    }
    assert FreadBlocks(contents[pos..], bufSize) == [];
    FreadBlocksSummary(contents, bufSize);
  }

  /** What the client does that the outside world sees. */
  datatype Event = FileOpened | SocketOpened | Sent(data: seq<byte>) | FileClosed | SocketClosed

  /** One `send` call per block. */
  function SendEvents(blocks: seq<seq<byte>>): (events: seq<Event>)
    ensures |events| == |blocks|
    ensures forall i :: 0 <= i < |blocks| ==> events[i] == Sent(blocks[i])
  {
    seq(|blocks|, i requires 0 <= i < |blocks| => Sent(blocks[i]))
  }

  /** The data of the `send` calls in a trace, in order. */
  function Sends(trace: seq<Event>): seq<seq<byte>>
  {
    if trace == [] then []
    else Sends(trace[..|trace| - 1]) + (if trace[|trace| - 1].Sent? then [trace[|trace| - 1].data] else [])
  }

  /** The byte stream the client puts on the connection. */
  function Stream(trace: seq<Event>): seq<byte>
  {
    Concat(Sends(trace))
  }

  lemma {:induction false} SendsAppend(a: seq<Event>, b: seq<Event>)
    ensures Sends(a + b) == Sends(a) + Sends(b)
    decreases |b|
  {
    if b == [] {
      assert a + b == a;
    } else {
      var init := b[..|b| - 1];
      assert (a + b)[..|a + b| - 1] == a + init;
      SendsAppend(a, init);
      assert b[..|b| - 1] == init;
    }
  }

  lemma {:induction false} SendsOfSendEvents(blocks: seq<seq<byte>>)
    ensures Sends(SendEvents(blocks)) == blocks
    decreases |blocks|
  {
    if blocks != [] {
      var init := blocks[..|blocks| - 1];
      assert SendEvents(blocks)[..|blocks| - 1] == SendEvents(init);
      SendsOfSendEvents(init);
    }
  }

  /** The trace of a successful run: the name goes on the stream before every block. */
  function TransferTrace(name: seq<byte>, blocks: seq<seq<byte>>): seq<Event>
  {
    [FileOpened, SocketOpened, Sent(name)] + SendEvents(blocks) + [FileClosed, SocketClosed]
  }

  lemma StreamOfTransfer(name: seq<byte>, blocks: seq<seq<byte>>)
    ensures Stream(TransferTrace(name, blocks)) == name + Concat(blocks)
  {
    var head := [FileOpened, SocketOpened, Sent(name)];
    SendsAppend(head, SendEvents(blocks));
    SendsAppend(head + SendEvents(blocks), [FileClosed, SocketClosed]);
    SendsOfSendEvents(blocks);
    assert Sends(head) == [name] by {
      assert head == [FileOpened, SocketOpened] + [Sent(name)];
      SendsAppend([FileOpened, SocketOpened], [Sent(name)]);
      assert [FileOpened, SocketOpened][..1] == [FileOpened];
      assert Sends([FileOpened, SocketOpened]) == [];
      assert Sends([Sent(name)]) == [name];
      assert [FileOpened][..0] == [];
      assert [Sent(name)][..0] == [];
    }
    assert Sends([FileClosed, SocketClosed]) == [] by {
      assert [FileClosed, SocketClosed][..1] == [FileClosed];
      assert [FileClosed][..0] == [];
    }
    assert Sends(TransferTrace(name, blocks)) == [name] + blocks;
    ConcatCons(name, blocks);
  }

  /**
   * TCPclient.c main. `files` are the readable regular files (fopen succeeds exactly on them),
   * `socketOk` whether socket() succeeds, and `connectOk` whether inet_pton accepts the host and
   * connect succeeds. `status` is the exit status and `trace` what happened, in order.
   */
  method Run(argc: int, fileName: string, ipPort: string, bufArg: int,
             files: map<string, seq<byte>>, socketOk: bool, connectOk: bool)
    returns (status: int, trace: seq<Event>)
    requires IsCString(fileName)
    requires argc == 4 ==> bufArg >= 0
    ensures status == 0 <==> argc >= 3 && SplitAddress(ipPort).Some? && fileName in files && socketOk && connectOk
    ensures status != 0 ==> status == 1
    ensures argc < 3 || SplitAddress(ipPort).None? || fileName !in files ==> trace == []
    ensures argc >= 3 && SplitAddress(ipPort).Some? && fileName in files && !socketOk ==>
      trace == [FileOpened, FileClosed]
    ensures argc >= 3 && SplitAddress(ipPort).Some? && fileName in files && socketOk && !connectOk ==>
      trace == [FileOpened, SocketOpened, SocketClosed, FileClosed]
    ensures status == 0 ==>
      trace == TransferTrace(NameMessage(fileName), FreadBlocks(files[fileName], BlockSize(argc, bufArg) as nat))
    ensures status == 0 && BlockSize(argc, bufArg) > 0 ==>
      Stream(trace) == NameMessage(fileName) + files[fileName]
    ensures status == 0 && BlockSize(argc, bufArg) == 0 ==>
      Stream(trace) == NameMessage(fileName)
  {
    trace := [];
    if argc < 3 {
      return 1, trace;
    }
    var bufSize: nat := BlockSize(argc, bufArg);
    var split := SplitAddress(ipPort);
    if split.None? {
      return 1, trace;
    }
    if fileName !in files {
      return 1, trace;
    }
    var contents := files[fileName];
    trace := trace + [FileOpened];
    if !socketOk {
      trace := trace + [FileClosed];
      return 1, trace;
    }
    trace := trace + [SocketOpened];
    if !connectOk {
      trace := trace + [SocketClosed, FileClosed];
      return 1, trace;
    }
    trace := trace + [Sent(NameMessage(fileName))];
    var blocks := SendContents(contents, bufSize);
    trace := trace + SendEvents(blocks) + [FileClosed, SocketClosed];
    assert trace == TransferTrace(NameMessage(fileName), blocks);
    status := 0;
    StreamOfTransfer(NameMessage(fileName), blocks);
  }

  /**
   * As written, a block size of 0 (`argv[3]` of "0", or any text `atoi` reads as 0) sends the
   * name and no content, and main still exits with 0 and reports the file as sent.
   */
  lemma ZeroBlockSizeSendsOnlyName(fileName: string, contents: seq<byte>)
    requires IsCString(fileName) && contents != []
    ensures Stream(TransferTrace(NameMessage(fileName), FreadBlocks(contents, BlockSize(4, 0))))
            == NameMessage(fileName) != NameMessage(fileName) + contents
  {
    StreamOfTransfer(NameMessage(fileName), []);
    assert |NameMessage(fileName) + contents| > |NameMessage(fileName)|;
  }

  /** The block size of line 18 with a non-positive size refused instead of used. */
  function CheckedBlockSize(argc: int, bufArg: int): (r: Option<nat>)
    ensures r.Some? <==> BlockSize(argc, bufArg) > 0
    ensures r.Some? ==> r.value == BlockSize(argc, bufArg)
  {
    var size := BlockSize(argc, bufArg);
    if size > 0 then Some(size) else None
  }

  /** Every block size the checked selection admits puts the whole file on the stream. */
  lemma CheckedBlockSizeSendsFile(argc: int, bufArg: int, fileName: string, contents: seq<byte>)
    requires IsCString(fileName) && CheckedBlockSize(argc, bufArg).Some?
    ensures var size := CheckedBlockSize(argc, bufArg).value;
      Stream(TransferTrace(NameMessage(fileName), FreadBlocks(contents, size)))
      == NameMessage(fileName) + contents
  {
    var size := CheckedBlockSize(argc, bufArg).value;
    StreamOfTransfer(NameMessage(fileName), FreadBlocks(contents, size));
    FreadBlocksConcat(contents, size);
  }
}
