# Chunked peer-to-peer file transfer, modelled in Dafny

This project models the core of a peer-to-peer file sharing tool.

The chunk store (`src/file_handler.py`) does four things:
- it describes a file by its metadata;
- it reads the file in fixed-size chunks;
- it writes incoming chunks, where chunk 0 truncates the file and later chunks append;
- it keeps an inventory of missing chunk artefacts and reassembles numbered artefacts into one file.

The transfer object (`src/transfer.py`) runs a stop-and-wait protocol over one connection:
- The sender (`send_file`) sends a JSON handshake and waits for `READY`.
- It then sends each chunk as a JSON header line followed by the payload, and waits for `CHUNK_<i>_OK`.
- At the end it sends `TRANSFER_COMPLETE` and reports success exactly when the answer is `SUCCESS`.
- The receiver (`_handle_client`, `_receive_file`) mirrors this. It reads newline-terminated lines and payloads of the declared size, writes each chunk and acknowledges it, and answers the completion message after checking the SHA-256 digest of what it stored.

Modules, one per file:
- `Base` (`base.dfy`): bytes, `Option`, Python's decimal rendering (`f"{i}"`), and `str.strip()`.
- `Paths` (`paths.dfy`): `os.path.basename`, `os.path.dirname` and `os.path.join` on POSIX paths.
- `Chunking` (`chunking.dfy`): chunk arithmetic. It covers the ceiling chunk count and the chunk slices. It also gives the effect of truncate-then-append writes and, as a reference, positioned writes.
- `FileHandling` (`file_handler.dfy`): `FileMetadata`, and the filesystem as a `Disk` class holding `files: map<Path, Bytes>` and a set of paths that cannot be opened for writing. `FileHandler` is a class over a `Disk`.
- `Protocol` (`protocol.dfy`): control frames as a datatype, reply tokens, and the sender specification. The specification functions are:
  - `SenderLog`: everything sent;
  - `RepliesRead`: the number of replies read;
  - `SenderVerdict`: the returned boolean;
  - `FirstStop` and `ChunksSent`: where the chunk loop stops.
  The module also holds the receiver's `ChunkReplies` and `CompletionVerdict`.
- `Channels` (`channels.dfy`): the two socket ends as classes.
  - The sender's socket keeps the stripped reply tokens the peer will send, a count of those read so far, and a log of typed sends.
  - The receiver's socket keeps incoming reads as `seq<Bytes>`, where an empty element is end of stream. `recv(max)` splits a longer segment.
- `Receiving` (`receiving.dfy`): the receiver specification, as functions of the segments the socket delivers.
  - `LineRead` and `PayloadRead`: what the two readers return and leave.
  - `ReceiveRound`: one round of the chunk loop.
  - `ReceiveLoop`: the whole chunk loop.
  - `ReceiveSession`: `_receive_file` after the handshake line, with its replies and its effect on the disk.
  - The module also feeds the receiver what `send_file` writes, and proves that the two ends agree.
- `Transfer` (`transfer.dfy`): the `P2PTransfer` class.
  - Sender: `SendFile`, with its pieces `Exchange`, `SendChunks`, `ChunkRound` and `SendChunk`.
  - Receiver: `HandleClient` and `ReceiveFile`, with the pieces `ReceiveChunks`, `NextChunk`, `ReceiveChunk` and `AnswerCompletion`. Each is proved to compute the matching `Receiving` function of the segments it reads.
  - The missing-import finding: `HandleClientAsWritten`.

Abstractions:
- JSON decoding of a received line and UTF-8 decoding of received bytes are functions given to the `P2PTransfer` constructor (`decodeFrame`, `decodeText`).
- The line given to `decodeFrame` is the whole buffer of the line reader. That includes any bytes that came after the newline in the same read, as in the source (src/transfer.py:195). The payload is read from the segments after that buffer (src/transfer.py:201).
- SHA-256 is a function given to `FileHandler` (`sha256`).
- The Tor socket is the `sock` parameter of `SendFile`, which is `null` when no socket could be created. Whether `connect` succeeds is the socket's `reachable` flag.
- Calls of `on_file_received` are recorded in the `delivered` log.

## Model

| member | source | states |
|---|---|---|
| Base.NatToString | src/transfer.py:80 | the decimal rendering of a chunk index is a non-empty string that starts with a digit, and has at least two characters from 10 on |
| Base.NatToStringInjective | src/transfer.py:80 | two non-negative numbers with the same rendering are equal |
| Base.IntToString | src/transfer.py:211 | f"{i}" starts with '-' exactly when i is negative |
| Base.IntToStringInjective | src/transfer.py:211 | two integers with the same rendering are equal, so a token names one chunk index |
| Base.Strip | src/transfer.py:51 | str.strip() returns a contiguous piece of its input, with only whitespace cut on either side, and its result neither starts nor ends with whitespace |
| Base.StripNewlineTerminated | src/transfer.py:79 | a token with no surrounding whitespace, sent with its newline, strips back to the token |
| Paths.Basename | src/file_handler.py:34 | os.path.basename returns a name without a separator |
| Paths.BasenameIsLongestSuffix | src/file_handler.py:34 | the basename is a suffix of the path, and when it is shorter than the path a separator comes right before it |
| Paths.Head | src/file_handler.py:67 | the path is its head followed by its basename |
| Paths.StripTrailingSlashes | src/file_handler.py:67 | rstrip('/') keeps a prefix, cuts only separators, and unless the input is all slashes ends in a non-slash |
| Paths.Dirname | src/file_handler.py:67 | os.path.dirname is empty exactly when the path holds no separator, which is when os.makedirs('') raises |
| Paths.JoinShape | src/transfer.py:173 | os.path.join(a, b) is b when b is absolute; otherwise it starts with a, ends with b, has a separator right before b unless a is empty, and adds at most that one separator |
| Paths.BasenameAfterSeparator | src/file_handler.py:34 | a separator-free name after a separator (or alone) is the basename |
| Paths.BasenameOfJoin | src/transfer.py:173 | a separator-free file name joined onto a download directory is the basename of the result |
| Paths.JoinInjective | src/transfer.py:173 | two relative names joined onto one directory give the same path only when they are equal |
| Chunking.ChunkCount | src/file_handler.py:28 | (filesize + chunk_size - 1) // chunk_size chunks hold the file, one chunk fewer does not, and there are no chunks exactly when the file is empty |
| Chunking.ChunkStartIsProduct | src/file_handler.py:56 | chunk i starts at offset i * chunk_size |
| Chunking.Chunk | src/file_handler.py:56-57 | the read after the seek returns at most chunk_size bytes, and no more than the file holds |
| Chunking.ChunkShape | src/file_handler.py:55-58 | a chunk is at most chunk_size long, is full whenever the file extends past its end, and is empty exactly when it starts at or past the end of the file |
| Chunking.ChunksPrefix | src/file_handler.py:55-58 | the first k chunks, laid end to end, are the first min(k * chunk_size, size) bytes of the file |
| Chunking.ChunksCover | src/file_handler.py:28 | reading chunks 0 .. chunks-1 gives back exactly the file, no chunk is empty, and every chunk but the last is full |
| Chunking.ChunksFilled | src/file_handler.py:56-57 | when chunk n - 1 starts inside the file, chunks 0 .. n-1 are non-empty and all but the last are full |
| Chunking.AfterWriteEffect | src/file_handler.py:69-73 | after a write the path exists and ends with the data; index 0 leaves only the data, a later index keeps the old contents in front of it, and no other path changes |
| Chunking.SequentialWrites | src/file_handler.py:69-73 | a write at index 0 followed by writes at positive indices leaves the file equal to the payloads in order, and no other path changes |
| Chunking.WritingEveryChunkRebuildsFile | src/file_handler.py:63-79 | writing chunk i of a file for every i in order rebuilds the file at the destination |
| Chunking.PayloadsOfChunkWrites | src/file_handler.py:63-79 | writes of chunks 0 .. k-1 carry exactly the first k chunks |
| Chunking.PositionedWrite | src/file_handler.py:64 | the reference write at an offset: the data lands at the offset, bytes before it are kept, bytes after it are kept, and the length is the larger of the two ends |
| Chunking.InOrderAppendIsPositioned | src/file_handler.py:69-73 | for chunks arriving in order 0, 1, 2, ... with all but the last full, appending equals writing at i * chunk_size, and the file length is (n - 1) * chunk_size plus the last payload |
| Chunking.RepeatedChunkIsAppendedTwice | src/file_handler.py:69-73 | a chunk written twice is appended twice, unlike a positioned write |
| FileHandling.ArtefactPath | src/file_handler.py:90 | the artefact path of chunk i extends the file's path |
| FileHandling.ArtefactPathsDistinct | src/file_handler.py:90 | different chunk numbers name different artefacts next to a file |
| FileHandling.ExpectedArtefactSize | src/file_handler.py:86-88 | chunk_size when the file does not exist; the length of the chunk read_chunk returns when the chunk starts inside the file or at its end; negative past the end |
| FileHandling.FileHandler.GetFileMetadata | src/file_handler.py:21-42 | None exactly when the file does not exist or the chunk size is zero; otherwise the basename, the size, the SHA-256 digest, the handler's chunk size, encrypted False, and the ceiling chunk count |
| FileHandling.FileHandler.CalculateChecksum | src/file_handler.py:44-50 | the digest of the file's contents, or None when the file does not exist |
| FileHandling.FileHandler.ReadChunk | src/file_handler.py:52-61 | None exactly when the file is missing or the seek offset index * chunk_size is negative; otherwise chunk index, at most chunk_size bytes, which is empty for a negative index with chunk size 0 |
| FileHandling.FileHandler.WriteChunk | src/file_handler.py:63-79 | succeeds exactly when the path has a directory part and can be opened for writing; on success chunk 0 truncates and later chunks append, and no other file changes; on failure nothing changes |
| FileHandling.FileHandler.GetMissingChunks | src/file_handler.py:81-95 | strictly increasing indices below total_chunks; i is listed exactly when "<path>.chunk<i>" is absent or its size differs from min(C, size - i*C), or from C when the file is absent |
| FileHandling.FileHandler.ReassembleFile | src/file_handler.py:97-113 | fails without change when the output cannot be opened; otherwise returns True exactly when artefacts 0 .. total-1 all exist, and leaves the output holding the artefacts before the first absent one in order, those artefacts removed, and the rest untouched |
| FileHandling.ReassemblyPathNamesChunk | src/file_handler.py:102 | the file name of artefact i is "chunk<i>", whatever the directory |
| FileHandling.FirstAbsentArtefact | src/file_handler.py:101-109 | the first absent artefact index at or after j: every artefact before it exists and it is absent itself, unless it is the count |
| FileHandling.ReassemblyPathsDistinct | src/file_handler.py:102 | different chunk numbers name different artefacts |
| FileHandling.WithoutArtefactsKeepsOthers | src/file_handler.py:106 | removing artefacts 0 .. k-1 leaves every other path as it was |
| FileHandling.LaterArtefactsUntouched | src/file_handler.py:106 | artefacts numbered k and above survive the removal of artefacts 0 .. k-1 unchanged |
| FileHandling.EarlierArtefactsRemoved | src/file_handler.py:106 | artefacts 0 .. k-1 are gone after reassembly has passed them |
| FileHandling.ReassemblyStepPresence | src/file_handler.py:103 | midway through reassembly, artefact i is present exactly when it was present at the start |
| FileHandling.ReassemblyStep | src/file_handler.py:103-106 | copying artefact i onto the output and removing it moves the reassembly state from i to i + 1 |
| Protocol.AckTokenInjective | src/transfer.py:80 | `AckToken(i)`, the reply f'CHUNK_{i}_OK', names exactly one chunk index |
| Protocol.FailTokenDistinct | src/transfer.py:215 | `FailToken(i)`, the reply f'CHUNK_{i}_FAIL', is never an acknowledgement, and names exactly one index |
| Protocol.ChunkRepliesSurviveStrip | src/transfer.py:79-80 | the receiver's chunk replies, sent with a newline, strip back to the token that the sender compares against |
| Protocol.FixedTokenSurvivesStrip | src/transfer.py:51-52 | READY, SUCCESS, CHECKSUM_MISMATCH, TRANSFER_INCOMPLETE and TRANSFER_COMPLETE, sent with a newline, strip back to themselves |
| Protocol.HandshakeFrame | src/transfer.py:38-46 | the handshake is a send_file frame |
| Protocol.FirstStop | src/transfer.py:61-83 | the index where the chunk loop stops lies between the starting index and the chunk count |
| Protocol.FirstStopIsFirst | src/transfer.py:61-83 | every chunk before the loop's stop goes through, and the chunk at the stop, unless it is the chunk count, does not |
| Protocol.ChunksSent | src/transfer.py:61-83 | the chunks that reach the wire are never more than the chunk count |
| Protocol.SenderBounds | src/transfer.py:38-98 | SenderLog starts with the handshake and holds at most a header and a payload per chunk and TRANSFER_COMPLETE after it; RepliesRead is at least one and at most one per chunk plus READY and the final answer; SenderVerdict holds only when every one of those replies was read |
| Protocol.SenderStopsWithoutReady | src/transfer.py:51-55 | without READY the sender has sent only the handshake, read one reply, and returns False |
| Protocol.SenderAfterReady | src/transfer.py:57-98 | after READY the sender sends the handshake and the frames of ChunksSent chunks, then TRANSFER_COMPLETE exactly when the loop ran to the end; it reads one reply per chunk sent plus the final one, and returns True exactly when the loop completed and the final reply is SUCCESS |
| Protocol.ChunkLoopStopsAtEmptyRead | src/transfer.py:62-66 | at an empty chunk read the loop stops before sending anything of that chunk |
| Protocol.ChunkLoopStopsAtRefusal | src/transfer.py:79-83 | at a reply that is not the chunk's ACK the loop stops, after that chunk's header and payload went out |
| Protocol.ChunkFramesLayout | src/transfer.py:69-76 | chunk i's header, with its index, payload length and final flag, sits at position 2i of the chunk frames, and its payload right after it |
| Protocol.HandshakeFirst | src/transfer.py:38-55 | the first send is the handshake with the metadata's fields, action send_file and encrypted as given; without READY it is the only send |
| Protocol.FrameKinds | src/transfer.py:75-76 | every chunk frame is a payload or the header of a chunk numbered below the count sent |
| Protocol.ChunksInOrder | src/transfer.py:61-76 | chunk headers (`HeaderFor`, the dict built at src/transfer.py:69-73) go out for 0, 1, 2, ... in order, each carrying its payload's length and final iff it is the last chunk, each right before its payload |
| Protocol.NoChunkAfterFailure | src/transfer.py:62-83 | once chunk k does not go through, no header of a later chunk and no TRANSFER_COMPLETE is ever sent |
| Protocol.CompleteOnlyAfterEveryAck | src/transfer.py:87-88 | TRANSFER_COMPLETE is sent only after READY and the ACK of every chunk, and it is the last send |
| Protocol.VerdictIffSuccessReply | src/transfer.py:88-98 | the sender returns True exactly when it sent TRANSFER_COMPLETE and the reply to it was SUCCESS |
| Protocol.MetadataChunksNonEmpty | src/file_handler.py:28 | the chunks that a file's metadata announces are never empty reads |
| Protocol.CleanRepliesSucceed | src/transfer.py:18-98 | against a receiver that answers READY, every ACK and SUCCESS, the sender sends the handshake, every chunk and TRANSFER_COMPLETE, and returns True |
| Protocol.AllAcceptedRunsToEnd | src/transfer.py:61-85 | when every chunk from i on goes through, the loop runs to the chunk count |
| Protocol.SentPayloadsOfFrames | src/transfer.py:75-76 | the payloads in the frames of k chunks are the first k chunks laid end to end |
| Protocol.CompletedTransferCarriesFile | src/transfer.py:61-88 | whenever TRANSFER_COMPLETE is sent, the payloads sent before it are exactly the file |
| Protocol.ChunkReplies | src/transfer.py:210-216 | one reply per chunk write |
| Protocol.ChunkRepliesNames | src/transfer.py:210-216 | the reply to write k is the ACK of its index, or the FAIL of its index for a failed last write |
| Protocol.CompletionVerdict | src/transfer.py:219-233 | any reply to the completion message is SUCCESS, CHECKSUM_MISMATCH or TRANSFER_INCOMPLETE |
| Protocol.SuccessIffChecksumMatches | src/transfer.py:219-233 | SUCCESS exactly when the stripped text is TRANSFER_COMPLETE and the stored output hashes to the announced checksum; CHECKSUM_MISMATCH exactly when it is TRANSFER_COMPLETE and the digest differs; TRANSFER_INCOMPLETE exactly for any other decodable text |
| Protocol.EveryChunkWrittenGivesSuccess | src/transfer.py:182-224 | a receiver that writes every chunk of f in order stores f, so TRANSFER_COMPLETE with f's checksum gets SUCCESS |
| Channels.SenderChannel.Connect | src/transfer.py:35 | connect succeeds exactly for a reachable target, and sends and reads nothing |
| Channels.SenderChannel.Send | src/transfer.py:48 | a send appends one message to the log |
| Channels.SenderChannel.Recv | src/transfer.py:51 | recv(1024).decode().strip() returns the next unread reply token, or "" once the peer has closed, and counts one more read |
| Channels.SenderChannel.Close | src/transfer.py:54 | close marks the socket closed and changes nothing else |
| Channels.Stream | src/transfer.py:186-190 | nothing arrives exactly when the stream ends before its first segment |
| Channels.RecvData | src/transfer.py:187 | recv(max) returns at most max bytes |
| Channels.RecvRest | src/transfer.py:187 | after end of stream a read leaves the socket as it was, and a read never adds segments |
| Channels.RecvSplitsStream | src/transfer.py:187 | a read loses and invents nothing: the stream is the data read followed by the stream left, and the data is empty exactly at end of stream |
| Channels.ReceiverChannel.Recv | src/transfer.py:187 | the bytes read are the next piece of the stream, at most max of them, and empty exactly at end of stream |
| Channels.ReceiverChannel.Send | src/transfer.py:176 | a reply is appended to what the receiver sent |
| Channels.ReceiverChannel.Close | src/transfer.py:162 | close marks the socket closed |
| Receiving.LineRead | src/transfer.py:185-190 | the line reader loses and invents nothing (its buffer and the stream are what it returns and what it leaves), only grows its buffer, and stops without a newline only at end of stream |
| Receiving.PayloadRead | src/transfer.py:201-207 | the payload reader loses and invents nothing, never holds more than the declared size, and holds fewer bytes only at end of stream |
| Receiving.ReceiveRound | src/transfer.py:184-216 | a round ends the loop exactly when the stream is empty, and raises exactly when the line read does not parse as a chunk header; otherwise the stream is the header line, then the payload written, then the rest; the write carries the header's index, at most the header's size and fewer only at end of stream, and it is acknowledged exactly when the output is writable |
| Receiving.ReceiveLoop | src/transfer.py:182-216 | the chunk loop makes no more writes than total_chunks, each payload within its declared size; a write fails exactly when there are writes and the output is unwritable, and then it is the only write and nothing raised |
| Receiving.LoopFromPrepends | src/transfer.py:182-216 | running the loop while carrying the writes made so far is the same as putting them in front of the loop from that point |
| Receiving.MidwayStart | src/transfer.py:182 | before the first round nothing is written or sent, and the loop ahead is the whole loop |
| Receiving.MidwayAtTotal | src/transfer.py:183 | once received_chunks reaches total_chunks the loop is over, with the writes made and none failed |
| Receiving.LoopAfterAck | src/transfer.py:210-212 | after an acknowledged round the loop goes on from received_chunks + 1, and that round's write comes first |
| Receiving.RoundRecorded | src/transfer.py:209-216 | after a round the files are the writes so far applied in order (none when the write was refused) and the replies are one ACK or FAIL per write |
| Receiving.RoundAdvances | src/transfer.py:183-216 | an acknowledged round continues the loop one chunk further with its write recorded; any other round (the two `break`s and the raise) ends the loop, a refused write being the only write |
| Receiving.ReceiveSession | src/transfer.py:164-233 | the replies start with READY, and end with the verdict's token when there is one, which needs a completion message; SUCCESS only for a stored output whose digest is the announced checksum |
| Receiving.EmptyTransferGetsNoReply | src/transfer.py:183-222 | with zero chunks announced and no older output, nothing is written, and TRANSFER_COMPLETE gets no reply after READY because hashing the missing output raises |
| Receiving.LineOfSegment | src/transfer.py:185-190 | a newline-terminated line that arrives in its own segment is read whole, however many recv(1024) it takes, and nothing after it is touched |
| Receiving.PayloadOfSegment | src/transfer.py:201-207 | a payload that arrives in its own segment, of the declared size, is read whole, however many recv(4096) it takes, and nothing after it is touched |
| Receiving.CleanRound | src/transfer.py:184-212 | a chunk header line and its payload, each in its own segment, make one round that writes the payload under the header's index |
| Receiving.WireOfChunkFrames | src/transfer.py:75-76 | the sender's chunk frames, one segment per send, are the header lines and payloads of chunks 0 .. n-1 in order |
| Receiving.ChunkWritesIndexed | src/transfer.py:210 | the writes of a clean stream put chunk k under index k |
| Receiving.CleanLoopStep | src/transfer.py:183-212 | chunk i of a clean stream is written under index i and acknowledged, and the loop goes on with the chunks after it |
| Receiving.CleanLoop | src/transfer.py:182-216 | fed chunks i .. n-1 of a file with headers that parse, a writable receiver writes each of them in order under its own index, nothing raises or fails, and what follows is left unread |
| Receiving.CleanWritesAreAcked | src/transfer.py:211 | writes under indices 0, 1, 2, ... are answered CHUNK_0_OK, CHUNK_1_OK, ... |
| Receiving.ChunkWritesComplete | src/transfer.py:209-224 | writing every chunk of f under its own index stores f, gets every chunk acknowledged, and makes TRANSFER_COMPLETE succeed |
| Receiving.CleanSession | src/transfer.py:164-233 | fed every chunk of f and then TRANSFER_COMPLETE, the session stores f and answers READY, every ACK and SUCCESS |
| Receiving.SenderWire | src/transfer.py:38-88 | against READY, every ACK and SUCCESS, send_file writes the handshake line, the chunk segments and TRANSFER_COMPLETE, one segment per send |
| Receiving.CleanTransferSucceeds | src/transfer.py:142-233 | fed what send_file writes, each send in its own segment, the receiver accepts the handshake, stores the file, and answers exactly the replies on which send_file returns True |
| Transfer.ReadLine | src/transfer.py:185-190 | the line reader computes LineRead: it consumes exactly the bytes it returns; it stops without a newline exactly at end of stream; no newline arrived before its last read, which is at most 1024 bytes |
| Transfer.ReadPayload | src/transfer.py:201-207 | the payload reader computes PayloadRead: it consumes exactly the bytes it returns, never more than the declared size, and returns fewer only at end of stream |
| Transfer.OutputPathAsWritten | src/transfer.py:173 | evaluating os.path.join in transfer.py raises NameError for os |
| Transfer.P2PTransfer.constructor | src/transfer.py:12-16 | a new transfer object has a handler with 1 MiB chunks, is not listening, and has no transfers |
| Transfer.P2PTransfer.SendFile | src/transfer.py:18-102 | without metadata, socket or connection it returns False, and sends and reads nothing; otherwise, over the replies not yet read, it sends SenderLog, reads RepliesRead replies, closes the socket and returns SenderVerdict |
| Transfer.P2PTransfer.Exchange | src/transfer.py:37-98 | once connected, over the replies not yet read, it sends SenderLog, reads RepliesRead replies, closes the socket and returns SenderVerdict |
| Transfer.P2PTransfer.SendChunks | src/transfer.py:61-85 | the chunk loop sends the frames of ChunksSent chunks, reads one reply per chunk sent, and completes exactly when FirstStop reaches the chunk count |
| Transfer.P2PTransfer.ChunkRound | src/transfer.py:61-83 | a round started at chunk i before the loop's stop either ends the loop at FirstStop, with the frames of ChunksSent chunks sent and one reply read per chunk sent, or moves it to chunk i + 1 with the frames of i + 1 chunks sent |
| Transfer.P2PTransfer.SendChunk | src/transfer.py:62-83 | one round sends nothing for an empty read, and otherwise sends chunk i's header and payload and reads one reply; the chunk is accepted exactly when the read is non-empty and the reply is its ACK |
| Transfer.P2PTransfer.ReceiveFile | src/transfer.py:164-233 | computes ReceiveSession of the segments it reads, storing at `OutputPath`, os.path.join(download_dir, filename) as at src/transfer.py:173: the writes, the declared sizes, the completion message, the verdict, the files, the replies and the segments left. So at most total_chunks writes, each payload at most its declared size; a failed write is the only write; the disk holds the writes applied in order; the replies are READY, one ACK or FAIL per write, then the verdict's token if any; on_file_received is called exactly after SUCCESS; no other field of the transfer object changes |
| Transfer.P2PTransfer.ReceiveChunks | src/transfer.py:182-216 | ends as ReceiveLoop of the segments it starts from says: its writes, whether a header raised, whether the last write failed, and the segments left; the disk is the writes applied in order (none when the only write failed) and the replies are one ACK or FAIL per write |
| Transfer.P2PTransfer.NextChunk | src/transfer.py:183-216 | one pass of the loop body from part-way through the loop: an acknowledged write goes on to received_chunks + 1; any other round ends the loop, as the source's `break`s and the raise do |
| Transfer.P2PTransfer.ReceiveChunk | src/transfer.py:184-216 | computes ReceiveRound of the segments it starts from; a round that ends the loop or raises changes nothing; otherwise it writes the payload under the header's index and replies its ACK, or replies its FAIL and changes nothing |
| Transfer.P2PTransfer.AnswerCompletion | src/transfer.py:218-233 | reads exactly one recv(1024) of the stream and answers with CompletionVerdict of the decoded bytes and the stored output; on_file_received is called exactly after SUCCESS; no other field of the transfer object changes |
| Transfer.P2PTransfer.HandleClient | src/transfer.py:142-162 | the socket is always closed; the first line is accepted (`AcceptedHandshake`, the checks at src/transfer.py:148-156) exactly when it holds a newline and parses as a send_file handshake, and then the disk, the replies and the callbacks are those of ReceiveSession on the segments after that line, READY first; otherwise nothing is sent and nothing changes; isListening and currentTransfers never change |
| Transfer.P2PTransfer.HandleClientAsWritten | src/transfer.py:142-176 | as the source stands, the receiver sends nothing at all to any client and closes the socket |
| Transfer.MissingImportFailsEverySend | src/transfer.py:1-9 | against that receiver every send_file sends only the handshake and returns False |

## Left out

- `start_receiver` (src/transfer.py:104-140) is not part of this model. It is an accept loop that starts a daemon thread per connection, and `is_listening` is never cleared. The model handles one connection at a time through `HandleClient`.
- `tqdm` progress bars and `print` calls are user interface and are not modelled.
- JSON encoding of frames is not modelled. Frames are the `ControlFrame` datatype. Decoding is the `decodeFrame` function. A line that does not decode, or a header without `index` or `size`, raises in the source, which the model represents as `None`. The source looks up `action` in the handshake (src/transfer.py:152) and `index` and `size` in a chunk header (src/transfer.py:197-198) of the same decoded dictionary, so an object carrying both sets of keys serves as either; the model's `ControlFrame` gives a decoded line exactly one variant, and `index` or `size` values that are not integers have no representation.
- `bytes.decode()` is the `decodeText` function. UTF-8 itself is not modelled.
- SHA-256 is not modelled. `hashlib` is a foreign call; the model uses the uninterpreted `sha256` function of the file contents.
- The Tor client (`tor_client.py`), encryption (`encryption.py`), the command line (`cli.py`) and `utils.py` are not part of this model.
- `create_socket` and `connect` are not modelled as calls. The created socket is the `sock` parameter, `null` when creation failed, and `connect` succeeds exactly when `reachable` holds.
- The file-reading part of `_calculate_checksum` (4096-byte reads, src/file_handler.py:47-49) is not modelled. Only its result, the digest of the whole contents, is.
- I/O failures other than a missing file, a path with no directory part, and a path that cannot be opened for writing are not modelled. A full disk and a failing `os.remove` are examples.
- `FileHandling.FileHandler.ReadChunk` does not model a seek the platform refuses. Such offsets are 2^63 and above in CPython, or past the filesystem's largest file size. The source then returns None; the model returns the empty chunk past the end of the file.
- `FileHandling.FileHandler.ReadChunk` and `FileHandling.FileHandler.GetFileMetadata` take the chunk size as a `nat`. The source's `FileHandler(chunk_size)` also accepts a negative chunk size, with which `read_chunk(0)` reads the whole file. That is not modelled; `P2PTransfer` always uses 1 MiB.
- `FileHandling.FileHandler.WriteChunk` does not model a refused seek at a huge offset index * chunk_size (src/file_handler.py:72). The source then returns False; the model appends. So where the source answers such a header with CHUNK_<i>_FAIL, `Transfer.P2PTransfer.ReceiveChunk` answers with its ACK. In the model a write fails only for an output that cannot be written, so a failed write is always the first one.
- `Channels.SenderChannel.Send` always delivers the whole message. The source uses `send`, not `sendall` (src/transfer.py:75-76), on a socket with a 30-second timeout (src/tor_client.py:90). That can transmit only a prefix of a payload after a header that declared its full size.
- `Channels.SenderChannel.Recv` never fails. In the source a timeout or a socket error raises.
- `Transfer.P2PTransfer.Exchange` closes the socket on every path the model has. In the source an exception from `send` or `recv` leaves `send_file` through the handler at src/transfer.py:100-102 without `sock.close()`.
- The sender's `recv(1024)` is modelled as one reply token per call. Replies that arrive merged into one TCP segment, or split across segments, are not modelled.
- `Receiving.CleanTransferSucceeds` assumes that each send arrives as its own segment, and that the completion token fits one read. Sends that the network merges into one segment are covered by `ReceiveSession` but not by this lemma.
- The docstring of `write_chunk` (src/file_handler.py:64) and the comment before its seek (src/file_handler.py:71) describe a write at the chunk's position. The code opens the file in append mode for every index above 0 (src/file_handler.py:69), and there every write goes to the end of the file. The model follows the code.
  - `Chunking.InOrderAppendIsPositioned` proves the two agree for chunks arriving in order.
  - `Chunking.RepeatedChunkIsAppendedTwice` shows where they differ.
- `FileHandling.FileHandler.ReassembleFile` requires that the output path is none of the artefact paths. Reassembling a file onto one of its own artefacts aliases the input with the output, and that case is not modelled.
- `Protocol.HandshakeFrame` states only the frame's kind and action in its own contract. Its field values are stated by `Protocol.HandshakeFirst`.
- `currentTransfers` is initialised but never used by the modelled code, so no method touches it.

## Findings

| source | as written | input that shows it | evidently intended | confidence | as-written member | corrected member |
|---|---|---|---|---|---|---|
| src/transfer.py:173 | `os.path.join(download_dir, filename)` is evaluated, but `os` is not among the module's imports (src/transfer.py:1-9). The NameError is caught at line 235, so the receiver never sends READY. | any client whose first line is a send_file handshake | join the download directory and the file name, reply READY, and receive the file | high, not executed | Transfer.P2PTransfer.HandleClientAsWritten, Transfer.MissingImportFailsEverySend | Transfer.P2PTransfer.ReceiveFile |
