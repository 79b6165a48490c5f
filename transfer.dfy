/**
 * The two sides together. The client sends its name message and then the file without
 * waiting for the server (TCPclient.c:66-73), and the server's name read (TCPserver.c:13)
 * takes up to 256 bytes of whatever has arrived. So the stored file is the stream after
 * the name read's bytes. With a positive block size that equals the client's file only when
 * the name read stops right after the NUL; with block size 0 the client sends no content.
 */
module Transfer {
  import opened Buffers
  import opened Server
  import opened Client

  /** What the name read ends with when it returns the whole name message and maybe more. */
  lemma FileNameOfStreamPrefix(fileName: string, buf: seq<byte>)
    requires IsCString(fileName)
    requires |buf| > |fileName| && buf[..|fileName| + 1] == NameMessage(fileName)
    ensures NUL in buf && CStringLength(buf) == |fileName|
    ensures FileName(buf) == fileName
  {
    var m := NameMessage(fileName);
    assert buf[|fileName|] == m[|fileName|];
    assert forall i :: 0 <= i < |fileName| ==> buf[i] == m[i] != NUL;
    var n := CStringLength(buf);
    assert n == |fileName|;
    assert buf[..n] == m[..|fileName|];
  }

  /**
   * A name read `d` followed by the rest `rest` of a stream that is a name message and then
   * `sent`: since `d` holds a NUL, it covers the whole name message, and `rest` is `sent`
   * without the bytes `d` took beyond the NUL.
   */
  lemma NameReadSplitsStream(fileName: string, sent: seq<byte>, d: seq<byte>, rest: seq<byte>)
    requires IsCString(fileName) && NUL in d
    requires d + rest == NameMessage(fileName) + sent
    ensures |fileName| < |d| <= |fileName| + 1 + |sent|
    ensures FileName(d) == fileName
    ensures rest == sent[|d| - |fileName| - 1..]
    ensures rest == sent <==> |d| == |fileName| + 1
  {
    var m := NameMessage(fileName);
    var stream := m + sent;
    assert d == stream[..|d|];
    assert forall i :: 0 <= i < |d| && i < |fileName| ==> d[i] == m[i] != NUL;
    assert d[..|fileName| + 1] == m;
    FileNameOfStreamPrefix(fileName, d);
    assert rest == stream[|d|..];
    if |d| > |fileName| + 1 {
      assert |rest| < |sent|;
    }
  }

  /**
   * Whenever the server's `recv` calls return the client's stream in order, the server stores
   * the file under the client's name. With a positive block size the stored bytes are the
   * client's file without the content bytes that the name read took, and they are exactly the
   * client's file if and only if the name read returned only the name message. With block size
   * 0 the client sends only the name, and the stored file is empty.
   */
  lemma StoredFileIsStreamAfterNameRead(fileName: string, contents: seq<byte>, clientBufSize: nat,
                                        conn: seq<Recv>, serverBufSize: nat)
    requires IsCString(fileName)
    requires ValidConnection(conn, serverBufSize) && conn[0].Received?
    requires conn[0].data + Payload(conn)
             == Stream(TransferTrace(NameMessage(fileName), FreadBlocks(contents, clientBufSize)))
    ensures FileName(conn[0].data) == fileName
    ensures clientBufSize == 0 ==> |conn[0].data| == |fileName| + 1 && Payload(conn) == []
    ensures clientBufSize > 0 ==> |fileName| < |conn[0].data| <= |fileName| + 1 + |contents|
    ensures clientBufSize > 0 ==> Payload(conn) == contents[|conn[0].data| - |fileName| - 1..]
    ensures clientBufSize > 0 ==> (Payload(conn) == contents <==> |conn[0].data| == |fileName| + 1)
  {
    var blocks := FreadBlocks(contents, clientBufSize);
    StreamOfTransfer(NameMessage(fileName), blocks);
    if clientBufSize > 0 {
      FreadBlocksConcat(contents, clientBufSize);
      NameReadSplitsStream(fileName, contents, conn[0].data, Payload(conn));
    } else {
      assert Concat(blocks) == [];
      NameReadSplitsStream(fileName, [], conn[0].data, Payload(conn));
    }
  }

  /**
   * The name read can take the whole file with it: when the name message and a non-empty file
   * arrive in one segment, the server saves an empty file, successfully.
   */
  lemma NameReadCanSwallowFile(fileName: string, contents: seq<byte>, bufSize: nat)
    requires IsCString(fileName) && contents != []
    requires |fileName| + 1 + |contents| <= NameCapacity
    ensures var conn := [Received(NameMessage(fileName) + contents), PeerClosed];
      ValidConnection(conn, bufSize)
      && FileName(conn[0].data) == fileName
      && Payload(conn) == [] != contents
  {
    var conn := [Received(NameMessage(fileName) + contents), PeerClosed];
    assert conn[0].data[|fileName|] == NUL;
    assert conn[0].data[..|fileName| + 1] == NameMessage(fileName);
    FileNameOfStreamPrefix(fileName, conn[0].data);
    assert DataChunks(conn) == [];
  }
}
