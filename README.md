# TCPA3 file transfer: a Dafny model

TCPA3 sends one file from a client to a server over a TCP connection. The client
(`TCPclient.c`) splits its `<ip>:<port>` argument at the first colon and opens the file. It
connects and sends the file name with its terminating NUL. Then it sends the file in blocks
of at most `bufSize` bytes, as `fread` returns them. The server's `handle_client`
(`TCPserver.c`) reads the name with one `recv` of up to 256 bytes. It picks a path that does
not overwrite an existing file: `./name`, else `./name(1)`, `./name(2)`, and so on. It creates
that file and appends every later `recv` result to it, counting the bytes in `total_bytes`.

The project has five modules:

- `Buffers` (`buffers.dfy`): bytes, C strings, and the concatenation and total length of
  a sequence of blocks.
- `NameResolver` (`name_resolver.dfy`): the duplicate-name loop, `TCPserver.c:20-26`. The
  directory's namespace is a finite `set<string>`, and `access(p, F_OK) == 0` is membership.
  `Resolve` is the loop, proved equal to the specification function `Resolved`. The lemmas
  show that the result never exists and that its suffix is the smallest free one. The loop
  terminates because distinct suffixes give distinct paths, so the suffix never exceeds the
  number of existing files.
- `Server` (`server.dfy`): `handle_client` as the class `Session`. Its fields are the bytes
  written through the open `FILE`, `total_bytes`, the resolved path, the outcome, and how
  often the socket and the file were closed. The class `Directory` holds the working
  directory's files and the paths of its directories, which always include `./`, `./.` and
  `./..`. `access` finds both kinds of entry, so the resolver searches their union. The `recv` calls of one connection are a sequence of `Recv` results:
  non-empty chunks, then one final 0 or -1.
- `Client` (`client.dfy`): the client's `main` as the method `Run`. It returns the exit status
  and the trace of what the client did: the file opened, the socket opened, each `send`, each
  close. The `fread`/`send` loop is `SendContents`, specified by `FreadBlocks`.
- `Transfer` (`transfer.dfy`): what the server stores when its `recv` calls return the
  client's byte stream.

The client never waits for the server. So the server's name read can also return content
bytes that follow the NUL, and those bytes never reach the file.
`Transfer.StoredFileIsStreamAfterNameRead` states what is stored in general: the stream after
the name read's bytes. With a positive block size, the stored file equals the client's file
exactly when the name read ends at the NUL. With block size 0 the client sends only the name,
and the stored file is empty. `Transfer.NameReadCanSwallowFile` shows a connection that stores an empty
file, successfully, for a non-empty one.

## Model

| member | source | states |
|---|---|---|
| `NameResolver.Decimal` | TCPserver.c:25 | `%d` of the suffix prints at least one character, all of them decimal digits |
| `NameResolver.DecimalRoundTrip` | TCPserver.c:25 | reading back the printed digits gives the suffix |
| `NameResolver.DecimalInjective` | TCPserver.c:25 | two suffixes that print the same are equal |
| `NameResolver.CandidateInjective` | TCPserver.c:25 | `./name(j)` and `./name(k)` are the same path only when j = k |
| `NameResolver.BaseIsNoCandidate` | TCPserver.c:22-25 | `./name` is never one of the suffixed paths |
| `NameResolver.CandidatesUpToSize` | TCPserver.c:23-26 | suffixes 1..n give exactly n distinct paths |
| `NameResolver.ExistingCandidatesBound` | TCPserver.c:23-26 | if `./name` and `./name(1)`..`./name(n)` all exist, the directory holds more than n files, so the loop cannot run forever on a finite directory |
| `NameResolver.FirstFreeCandidateIsFree` | TCPserver.c:24-26 | the search from any suffix ends on a path that does not exist |
| `NameResolver.FirstFreeCandidateIs` | TCPserver.c:24-26 | the search ends on the first suffix whose path is absent |
| `NameResolver.ResolvedIsFree` | TCPserver.c:24 | the chosen path never exists beforehand, so no file is overwritten |
| `NameResolver.ResolvedIsSmallestSuffix` | TCPserver.c:22-26 | if `./name` exists, the path is `./name(k)` with k at least 1 and at most the number of files; `./name(1)`..`./name(k-1)` all exist and `./name(k)` does not |
| `NameResolver.ResolvedUnique` | TCPserver.c:23-26 | any suffix with that property is the one chosen |
| `NameResolver.Resolve` | TCPserver.c:22-26 | the loop returns `Resolved`: `./name` when absent, otherwise the smallest free `./name(k)`; never an existing path |
| `Server.CStringLength` | TCPserver.c:22 | `%s` stops at the first NUL of the name buffer: the index of a NUL with no NUL before it |
| `Server.PayloadSize` | TCPserver.c:35-40 | the stored size is the sum of the positive `recv` results after the name read |
| `Server.ReceiveLoop` | TCPserver.c:35-43 | the loop writes exactly the chunks after the name read, in order, each between 1 and `buf_size` bytes; the bytes written are their concatenation, `total_bytes` is their total length, and the loop stops at the final 0 or -1 |
| `Server.Session.Store` | TCPserver.c:29-50 | once the file is created, the file is closed exactly once and holds the bytes the loop wrote; only `path` changes in the directory; the outcome is a receive error after -1, else success with the path and `total_bytes` |
| `Server.Session.HandleClient` | TCPserver.c:11-51 | the directory stays valid (standard entries present, no path both a file and a directory), and the socket is closed exactly once. A name read of 0 or -1 creates nothing, changes nothing and opens no file. Otherwise the path is `Resolved` over the directory's files and directories as they were, so it is neither. If `fopen` fails, nothing is created. If it succeeds, the file is closed exactly once. It then holds the in-order concatenation of every positive `recv` after the name read, each write between 1 and `buf_size` bytes, and `total_bytes` is their total length. Only that new path is added to the directory, and no existing file changes. The outcome is a receive error if the last `recv` was -1, else success with the path and `total_bytes` |
| `Server.SequentialSessions` | TCPserver.c:96-110 | two connections handled one after the other with the same name are stored under two different paths, neither of them an existing file or directory |
| `Server.EmptyNameIsSuffixed` | TCPserver.c:22-26 | an empty name gives `./`, the working directory itself, which `access` finds, so the file goes to a suffix: `./(1)` when that is free, and never an existing entry |
| `Server.BufSizeAsWritten` | TCPserver.c:54-60 | main's argument check as written: the usage exit exactly when argc < 3; `argv[2]` as the buffer size when argc is 3, and 4096 when argc is larger |
| `Server.PortAloneIsRefused` | TCPserver.c:54-60 | as written, a port without a buffer size is refused, and the 4096 default applies only when extra arguments follow |
| `Server.BufSize` | TCPserver.c:54-60 | corrected argument check: a port alone is accepted with buffer size 4096; a port and a size give that size |
| `Server.BufSizeAcceptsUsage` | TCPserver.c:54-60 | the corrected check accepts both forms of the usage line and agrees with the code wherever the code accepts |
| `Client.BlockSize` | TCPclient.c:18 | the block size is `argv[3]` exactly when there are 4 arguments, and 4096 otherwise |
| `Client.SplitAddress` | TCPclient.c:21-28 | no result exactly when there is no `:`; otherwise the host is the colon-free text before the first `:` and the port text is everything after it |
| `Client.SplitAddressOfJoin` | TCPclient.c:21-28 | splitting `host + ":" + port` with a colon-free host gives back host and port |
| `Client.NameMessage` | TCPclient.c:66 | the name message is `strlen + 1` bytes: the name's bytes, none of them NUL, then one NUL |
| `Client.FreadBlocks` | TCPclient.c:71 | what successive `fread` calls return on a regular file, each min(bufSize, remaining) bytes: nothing exactly when the block size is 0 or the file is empty, and otherwise a first block that is the file's first min(bufSize, N) bytes |
| `Client.FreadBlocksConcat` | TCPclient.c:71-73 | the blocks read, in order, are the whole file |
| `Client.FreadBlocksSizes` | TCPclient.c:71-72 | every block is non-empty and at most `bufSize` bytes, and all but the last are exactly `bufSize` |
| `Client.FreadBlocksCount` | TCPclient.c:71-73 | there are ceil(N / bufSize) blocks; an empty file gives none |
| `Client.SendContents` | TCPclient.c:69-73 | the loop sends exactly `FreadBlocks`: the file in order, in non-empty blocks of at most `bufSize` bytes, all but the last full; nothing when the file is empty or `bufSize` is 0 |
| `Client.StreamOfTransfer` | TCPclient.c:66-73 | the bytes a successful run puts on the connection are the name message followed by the blocks |
| `Client.Run` | TCPclient.c:10-81 | exit status 0 exactly when there are at least 3 arguments, the address has a `:`, the file opens, and the socket and connect succeed; otherwise 1. Too few arguments, no `:` or an unopenable file happen before anything is opened. A failed socket closes the file, and a failed connect closes the socket and the file. On success the name message is sent first, then `FreadBlocks` of the file with `argv[3]` as the block size when there are exactly 4 arguments (4096 otherwise), then the file and the socket are closed. With a positive block size, the stream is the name message followed by the file. With block size 0 the stream is the name message alone, and the status is still 0 |
| `Client.ZeroBlockSizeSendsOnlyName` | TCPclient.c:18-80 | as written, a block size of 0 puts only the name message on the stream, not the file, although main exits with 0 |
| `Client.CheckedBlockSize` | TCPclient.c:18 | corrected block-size selection: a size only when line 18's choice is positive, and then that size |
| `Client.CheckedBlockSizeSendsFile` | TCPclient.c:18-73 | with every block size the corrected selection admits, the stream is the name message followed by the whole file |
| `Transfer.FileNameOfStreamPrefix` | TCPserver.c:22 | a name buffer that starts with the client's name message reads back as the client's file name |
| `Transfer.NameReadSplitsStream` | TCPserver.c:13-40 | a name read holding a NUL, taken from a stream that is the name message followed by more bytes, covers the whole name message and reads back the client's name; the rest of the stream, which the loop stores, is those bytes minus what the name read took beyond the NUL, and equals them exactly when the name read ends at the NUL |
| `Transfer.StoredFileIsStreamAfterNameRead` | TCPserver.c:13-40 | when the server's `recv` calls return the client's stream in order, the name read covers the whole name message, and the file is stored under the client's name. With a positive block size, its bytes are the client's file minus the content bytes the name read took, and the two are equal exactly when the name read ends at the NUL. With block size 0 the name read is exactly the name message and the stored file is empty |
| `Transfer.NameReadCanSwallowFile` | TCPserver.c:13-22 | a name read that returns the name message and a non-empty file together is a valid connection whose stored file is empty |

## Left out

- Sockets: socket creation, `bind`, `listen`, `accept` and the accept loop's logging (TCPserver.c:67-110) are OS plumbing. The model starts at `handle_client`, and `Server.SequentialSessions` stands for the accept loop.
- Client connection setup: `socket`, `inet_pton` and `connect` (TCPclient.c:38-63) are OS plumbing. Their success is the `socketOk` and `connectOk` parameters of `Client.Run`.
- Output: `printf` and `perror` messages are left out. `Server.Outcome` and the client's exit status stand for them.
- Memory: `malloc` and `free` are left out, including the server's `malloc` failure exit (TCPserver.c:61-65).
- `atoi`: the port and the buffer sizes are plain integer inputs. The port text is only split off, never converted.
- `send`: it is all-or-nothing, and send errors are not modelled. The source ignores `send`'s return value.
- `fwrite`: it always writes every byte; a full disk is not modelled. The written bytes reach the directory when `fclose` flushes them.
- `fread`: it is modelled on a regular file only, returning min(bufSize, remaining) bytes; read errors are not modelled.
- Server.Session.HandleClient: its requires excludes a name read with no NUL among its bytes. That happens when the name has 256 bytes or more, or arrives split across segments. The `%s` at TCPserver.c:22 then reads memory `recv` never wrote, which is undefined behaviour.
- Server.Session.HandleClient: the suffix is an unbounded integer; the C `int` overflow after 2^31-1 suffixes is not modelled. `NameResolver.ResolvedIsSmallestSuffix` shows that the suffix never exceeds the number of existing files.
- Server.Session.HandleClient: the 512-byte `snprintf` truncation is not modelled. A name of at most 255 bytes with such a suffix needs at most 269 bytes.
- Client.Run: its requires excludes a negative `argv[3]`. `malloc` of it fails, and `fread` then writes through a null buffer.
- Concurrency: `spawn_clients.py` launches clients in threads. The race between `access` and `fopen` across concurrent servers is not modelled; the server handles one connection at a time.
- Path sanitising: the source does not check names containing `/` or `..`. The model keeps the name as it is, as part of a directory key. A path is either a file or a directory, whatever it contains; the model does not resolve `name/sub` through subdirectories, and `fopen` failing on a path under a missing directory is the `createOk` parameter.
- Framing: length-prefixed chunks and a `READY` acknowledgment are not in this version of the source, so they are not modelled.

## Findings

| source | as written | input that shows it | evidently intended | confidence | as-written member | corrected member |
|---|---|---|---|---|---|---|
| TCPserver.c:54-60 | `argc < 3` refuses a port given alone, although the usage line marks `[bufSize]` optional. The `argc == 3` test at line 60 then picks 4096 only when extra arguments follow. | `server 8080` (argc 2) prints the usage and exits with 1 | a port alone is accepted with the 4096 default, i.e. the check is `argc < 2` | medium, not executed | `Server.PortAloneIsRefused` | `Server.BufSize` |
| TCPclient.c:18-80 | a block size of 0 from `argv[3]` (`"0"`, or any text `atoi` reads as 0) is used as is. The first `fread` at line 71 returns 0, so no content is sent, yet main prints "sent successfully" and exits with 0. | `client f.txt 127.0.0.1:8080 0` with a non-empty `f.txt` sends only `f.txt` and its NUL | a non-positive block size is refused, like the other argument errors, so that a status of 0 means the whole file was sent | medium, not executed | `Client.ZeroBlockSizeSendsOnlyName` | `Client.CheckedBlockSize` |
