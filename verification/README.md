# K0 Torrent Engine: verification

A Dafny model of the engine's stateful core, with proofs about every run of it.

* **Download engine** (`Pieces`, `PiecePicking`, `PieceManagement`, `Cores`, `Agreement`). Blocks go
  from Missing to Requested to Downloaded, pieces are opened, hashed, completed or thrown away. The
  specification works on values; the classes `PiecePicker` and `PieceManager` update their fields in
  place and are proved to take exactly the specified steps.
* **Storage** (`FileMaps`, `Disks`, `DiskManagement`). Files are byte sequences that grow on a write
  past their end. A multi-file store is proved to refine one flat byte array.
* **Peer stream** (`Messages`, `Handshakes`, `Streams`, `Connections`, `ReadChunks`, class `PeerConnection`).
  Incremental framing over any fragmentation, and a send queue under any partial sends.
* **The whole system** (`Swarm`, `SwarmSteps`, `SwarmInvariants`, `SwarmTheorems`, `SwarmInbound`,
  `SwarmDisk`, `SwarmMessages`, class `Session`, `Overwrite`). Any number of connections drive one manager and one disk. A
  run is any interleaving of starts, arriving bytes, handshakes, single deliveries, partial sends and
  closes. `SwarmSteps` cuts every action into small effects on the shared state; the invariants are
  proved once per effect. The methods of `PeerConnection` and `Session` are proved to be steps of this
  system, and `Sessions.SocketIsActions` shows that one whole poll result is a stretch of its actions.
* **Bencode and the info slice** (`Bencode`, `BencodeTurns`, `BencodeWraps`, `BencodeLocality`, `BackwardCursor`,
  `BencodeLaws`, `BencodeEncoding`, `BencodeErrors`, `Metainfo`). The decoder is modelled twice: as it is written
  (`RunAt`, `Decode`, the parser methods), with its wrapping cursor, and as it is meant (`ParseAt`), with
  sums that do not wrap. The written one need not end, so it takes a number of loop turns; a fixed
  number is proved to be enough for every decode that ends, which makes `Decode` total and exact.
  `BencodeEncoding` holds the canonical encoder of BEP 3, section "bencoding", which the repository does
  not have.
* **Tracker tiers** (`Tiers`). Failover, move to front, backoff, and the merged peer list.

## What is assumed

* SHA-1 is an arbitrary function on byte sequences (`Config.sha1`).
* `Torrent.WellFormed`: piece length in 1 .. 2^32 - 16384, fewer than 2^31 pieces, non-negative
  lengths, and (n - 1) * pieceLength < total size <= n * pieceLength. The parser does not check this
  (`srcs/torrent/metainfo.cpp:111-126`). It rules out the branch for an empty piece
  (`srcs/piece/piece_manager.cpp:26-30`). `Torrents.BlockCountExactly` shows that the upper bound on the
  piece length is exact.
* The joined paths of different files are different (`FileMaps.DistinctPaths`).
* In a run a connection is started once, while it is fresh (`Swarm.LocalStep`), because closing it keeps
  its buffers. The method `PeerConnection.Start` itself asks for no such thing.
* The order in which `unordered_map` visits active pieces is not determined: the scheduler's
  specification `Pieces.RequestStep` is a relation, and no result depends on the order.
* The socket, the poll results, the tracker replies and the clock are arbitrary inputs.

## Where the code is not what its documentation says

* `docs/README.md:147-148` says that verified data is written. The session writes each block before
  it is verified and whether or not it is accepted (`srcs/session/session.cpp:141-146`). So the disk
  agrees with the verified pieces only under a condition on incoming blocks, which a caller can test
  before it hands a block over: `Agreement.AgreementExactly` shows it to be exact for a single block and
  `SwarmTheorems.RunAgreesExactly` for whole runs. `Overwrite.OverwriteAfterCompletion` is a run, from
  the first handshake on, that breaks the agreement.
* `include/tracker/tracker_manager.hpp:11` says that the next tier is tried when all trackers of a tier
  fail. The code asks every tier (`srcs/tracker/tracker_manager.cpp:99-106`), and so does the model.
* In `try_tier` the reference taken before the rotation names, after it, the entry that now stands at
  the answering index, so the schedule goes to a tracker that failed
  (`srcs/tracker/tracker_manager.cpp:51-60`). `Tiers.AnswererScheduledExactly` says exactly when the
  answering tracker gets its schedule; `Tiers.WrongEntryScheduled` is the smallest instance.
* The info hash is taken from the first "4:info" anywhere in the file. `Metainfo.InfoSliceExactly` gives
  the exact condition under which that is the info dictionary, and `Metainfo.WrongSlice` is a torrent
  for which it is not.
* A string length near 2^64 makes `pos + len` wrap (`srcs/bencode/bencode.cpp:37`). The bound check lets
  it through, the text is cut off at the end of the data, and the cursor goes back. Then decoding may
  never end (`BackwardCursor.NeverEnds`, 22 bytes), and a value may depend on bytes behind those
  consumed (`BackwardCursor.ReadsPastItsEnd`, 27 bytes). Where no string with a wrapping sum is met
  (`!BencodeWraps.MeetsWrap`; it is enough that there is none in the data, `BencodeWraps.NoWraps`), every
  decode ends and is the one that is meant. `BencodeLocality.ValueLocalExactly` says exactly when the value
  of an accepted text depends on what follows it: when a string cut off at the end is left in it.
* A frame length near 2^32 makes `4 + length` wrap (`srcs/peer/message.cpp:52`), and the source then
  copies a payload from outside its buffer, which is undefined behaviour. The model ends in the separate
  outcome `Overflow`; `Messages.OverflowExactly` says exactly when, and `Messages.OverflowInstance` is
  such a buffer.

## Model

| member | source | states |
|---|---|---|
| SwarmTheorems.RunAgreesExactly | srcs/session/session.cpp:130-152 | The disk agrees with the manager in every state of a run if and only if every block delivered in the run is honest |
| SwarmTheorems.DiskAgreesWithVerification | srcs/session/session.cpp:130-152 | In every run whose delivered blocks are honest, the disk bytes of a piece that is completed in some state hash to its expected digest in that and every later state and never change; in every state each Downloaded block's data is on disk in its place |
| SwarmDisk.CompletedPieceReads | srcs/io/disk_manager.cpp:107-127 | In such a run, over any layout of the torrent's bytes and whatever the files held at the start, reading a completed piece back from the files succeeds and yields bytes with the expected digest; the image is what the files hold after all writes |
| SwarmTheorems.ExactRunIsHonest | srcs/session/session.cpp:130-146 | A run is honest if each delivered Piece message names a not yet Downloaded block of an active piece and carries exactly that block's length |
| Agreement.AgreementExactly | srcs/session/session.cpp:138-146 | Agreement of disk and manager survives a block if and only if the block is honest: it repeats every downloaded or completed byte it is written over (save those of its own piece if it is the last outstanding block and the joined bytes miss the digest), and otherwise, where it names an outstanding block, has that block's length |
| Agreement.OutcomeByGuards | srcs/piece/piece_manager.cpp:127-149 | Whether a block is ignored, kept or makes its piece fail is told by what can be looked at before: the outstanding block at its offset, whether the others are Downloaded, and the digest of the joined bytes |
| Agreement.PieceIsJoinedExactly | srcs/piece/piece_manager.cpp:155-164 | For blocks of the right lengths, a piece on disk equals the bytes that get hashed if and only if every block on disk equals that block's data |
| Agreement.OutstandingIsHonest | srcs/piece/piece_manager.cpp:127-131 | A block that names an active piece's outstanding block with its exact length overwrites no downloaded and no completed byte |
| Overwrite.OverwriteAfterCompletion | srcs/session/session.cpp:123-152 | For any hash function, any two different bytes and any handshakes for the same torrent: a run of seven actions from the start, in which one peer's Bitfield, Unchoke and Piece complete a piece with a matching hash, and its second Piece replaces the byte on disk while the piece stays completed |
| SwarmTheorems.AcceptedBlocksConserved | srcs/piece/piece_manager.cpp:121-153 | In every state of every run: accepts of a piece = block count times (hash failures + completions) + blocks in hand; at most one completion, exactly when marked completed, and each with the expected hash |
| SwarmTheorems.RequestBound | srcs/session/session.cpp:74-87 | Over all connections of a run a block is requested at most once more than its piece has failed its hash |
| SwarmTheorems.NeverRequestedAgain | srcs/piece/piece_picker.cpp:15-27 | Once a piece is completed it stays completed and the number of requests for any of its blocks, over all connections, never changes again |
| SwarmTheorems.RequestedIsOnWire | srcs/peer/peer_connection.cpp:69-77 | In every state of every run each Requested block has its whole Request frame, at a frame boundary, in the outbound bytes of some connection |
| SwarmInvariants.RunKeeps | srcs/session/session.cpp:89-157 | Every state of every run keeps the manager's invariant, the balance of accepted blocks, the bound tying each block's requests to its state and its piece's failures, and the soundness of every send queue |
| SwarmSteps.ActionPath | srcs/session/session.cpp:89-157 | Every action of the system is a sequence of steps each of which leaves the shared state alone, requests one block over a connected connection, or stores one block |
| Swarm.ReadIsActions | srcs/peer/peer_connection.cpp:104-140 | One read of a socket, with all the messages it completes, is a stretch of actions of the system |
| Sessions.SocketIsActions | srcs/peer/peer_connection.cpp:79-90 | One poll result, a send and then a read or a close, is a stretch of actions of the system |
| SwarmInvariants.RequestStanding | srcs/piece/piece_manager.cpp:47-119 | A request takes its block to Requested from Missing or from an unopened piece; every other block of the torrent keeps its standing, or becomes Missing where its piece is opened |
| Pieces.PickExactly | srcs/piece/piece_manager.cpp:49-90 | The scheduler finds nothing if and only if no active piece the peer has holds a Missing block and either ten pieces are active or no piece is incomplete, inactive and held by the peer |
| Pieces.RequestStepKeepsInv | srcs/piece/piece_manager.cpp:47-119 | Scheduling keeps the representation invariant: at most ten active pieces, all in range and not completed, blocks laid out as built, the count equal to the Downloaded blocks and below the total, no data in other blocks |
| Pieces.ProcessKeepsInv | srcs/piece/piece_manager.cpp:121-153 | The same invariant survives a block with any piece index, offset and data |
| Pieces.FinishesExactly | srcs/piece/piece_manager.cpp:127-148 | A piece is hashed, and so completed or thrown away, if and only if the block accepted is its only one not yet Downloaded |
| Pieces.LastBlockExactly | srcs/piece/piece_manager.cpp:131-133 | Counting one more block reaches the total if and only if all other blocks are Downloaded |
| Pieces.BlockRequestInjective | srcs/piece/piece_manager.cpp:57-71 | Two blocks of the torrent have the same Request message only if they are the same block |
| PieceManagement.PieceManager.CreateNextRequest | srcs/piece/piece_manager.cpp:47-119 | Takes one step of the scheduler's specification for some visiting order and returns the Request message of the block picked, or nothing |
| Pieces.BlockRequestExactly | srcs/piece/piece_manager.cpp:57-71 | A Request has id 6 and three big-endian words, piece, offset and length, and the torrent's bytes at that offset of the piece, that many, are exactly the block's; only a piece's last block is asked for with less than 16384 bytes |
| Pieces.PickIsFirst | srcs/piece/piece_manager.cpp:49-93 | Of all blocks that may be requested: active pieces go before new ones, a new piece is the least there is, and within a piece the first Missing block is taken |
| Pieces.NothingToRequestExactly | srcs/piece/piece_manager.cpp:76-90 | Nothing may be requested if and only if all blocks of the active pieces the peer has are asked for and ten pieces are active or all other pieces it has are completed |
| PieceManagement.PieceManager.FindMissing | srcs/piece/piece_manager.cpp:49-74 | Visiting active pieces in any order, returns the first Missing block of one the peer has, or nothing only if there is none |
| PieceManagement.PieceManager.InitActivePiece | srcs/piece/piece_manager.cpp:13-45 | With the source's 32-bit sums, the piece gets the specified Missing blocks and replaces only its own map entry |
| PieceManagement.PieceManager.BuildBlocks | srcs/piece/piece_manager.cpp:32-42 | The loop builds exactly the specified blocks |
| PieceManagement.PieceManager.ProcessBlock | srcs/piece/piece_manager.cpp:121-153 | The new state and outcome are the specified ones (ignored, stored, thrown away, completed) and true is returned exactly on completion |
| PieceManagement.PieceManager.GetCompletedPiece | srcs/piece/piece_manager.cpp:155-164 | The data of an active piece's blocks joined in order, and nothing for any other piece |
| PieceManagement.PieceManager.VerifyPieceHash | srcs/piece/piece_manager.cpp:166-175 | True if and only if the joined data hashes to the expected digest |
| PiecePicking.PiecePicker.PickNextPiece | srcs/piece/piece_picker.cpp:15-27 | The least piece that is not completed, not skipped and held by the peer, or -1 if and only if there is none |
| PiecePicking.PiecePicker.MarkCompleted | srcs/piece/piece_picker.cpp:10-13 | Sets one flag when the index is in range and changes nothing otherwise |
| Torrents.TilingExactly | srcs/piece/piece_manager.cpp:22-42 | A byte lies in block b of piece p if and only if it is inside the torrent and division by the piece length and the block size gives p and b |
| Torrents.BlocksDisjoint | srcs/piece/piece_manager.cpp:35-42 | Two different blocks of the torrent share no byte |
| Torrents.BlockLength | srcs/piece/piece_manager.cpp:39 | Block lengths are in 1..16384, all but the last are 16384, and the last one ends where the piece ends |
| Torrents.BlockCountExactly | srcs/piece/piece_manager.cpp:32 | The 32-bit block count is right if and only if the piece has at most 2^32 - 16384 bytes; above that a non-empty piece gets none |
| Torrents.ComputeTotalSize | srcs/torrent/torrent_file.cpp:11-20 | The single length, or the sum over all files |
| Torrents.TotalExactly | srcs/torrent/torrent_file.cpp:11-20 | The size of a torrent with files is what they add up to, one by one; only one without files has its own length |
| Cores.StoreBlockKeepsHistory | srcs/session/session.cpp:138-148 | The balance of accepts, failures and completions and the matching hashes survive any stored block |
| Cores.RequestKeepsHistory | srcs/session/session.cpp:78-86 | They survive any request |
| SwarmInbound.RunBitfieldExactly | srcs/session/session.cpp:110-128 | In every state of every run a peer's bitfield has a piece if and only if the last Bitfield delivered on its connection has its bit or a Have delivered since then announced it |
| SwarmInbound.MessageBitfield | srcs/session/session.cpp:89-157 | Handling a message, requests included, changes the bitfield exactly as that message says |
| Peers.BitfieldIsAnnouncedSet | srcs/session/session.cpp:110-128 | The same for the bitfield that a list of messages builds from nothing |
| SwarmInbound.ArrivedIsConsumed | srcs/peer/peer_connection.cpp:104-167 | On every open connection of every run the bytes of all reads are one acceptable handshake, then whole frames and keep-alives, then the buffer, and the messages delivered are exactly those of the frames, in order |
| Peers.SetPieceExactly | srcs/peer/peer.cpp:15-22 | Announcing a piece adds it and changes no other bit, also where the bitfield grows |
| Peers.BitOrderExactly | srcs/peer/peer.cpp:5-13 | Byte q of a bitfield is the sum of 2^(7 - r) over the pieces 8q + r it has, and no piece past its last byte is present |
| SwarmMessages.RunFlags | srcs/session/session.cpp:91-121 | In every state of every run a peer chokes us unless it has said Unchoke and no Choke since, is interested if it has said so and not taken it back, we are interested once it has sent a Have, and nothing is requested of it before an Unchoke |
| Peers.Peer.Announce | srcs/peer/peer.cpp:15-22 | The in-place update is that addition |
| FileMaps.MapBlockExpands | srcs/io/file_map.cpp:8-36 | The slices list exactly the places found by looking up each byte on its own, cut off at the end of the torrent |
| FileMaps.MapBlockSplits | srcs/io/file_map.cpp:8-36 | Mapping a + b bytes covers what mapping a bytes and then b bytes covers, in the same order |
| FileMaps.SlicesInOrder | srcs/io/file_map.cpp:13-34 | Slices are non-empty, lie inside one file each, and visit files in order, each at most once |
| FileMaps.SpotsDistinct | srcs/io/file_map.cpp:17-21 | Different bytes of the torrent have different places on disk |
| FileMaps.FileMap.Map | srcs/io/file_map.cpp:8-36 | The loop computes the specified slices |
| FileMaps.FileMap.AddFile | srcs/io/file_map.cpp:3-6 | The file is appended where the last one ends, and the map stays contiguous |
| Disks.WriteRefines | srcs/io/disk_manager.cpp:73-105 | A block write across any files, empty ones included, is one write to the flat image; every other byte of it is unchanged |
| Disks.WriteBlockByte | srcs/io/disk_manager.cpp:88-104 | What a write does to each byte; bytes it covers are readable afterwards, and so are those that were before |
| Disks.ReadExactly | srcs/io/disk_manager.cpp:107-127 | A read succeeds if and only if all bytes it covers are on disk, and then returns the image, with zeros past the end of the torrent |
| Disks.ReadAfterWrites | srcs/io/disk_manager.cpp:73-127 | After any sequence of writes, reading bytes that have all been written succeeds and returns the latest byte at each offset |
| DiskManagement.DiskManager.WriteBlock | srcs/io/disk_manager.cpp:73-105 | The store becomes the specified one and the flat image is patched at piece * pieceLength + offset |
| DiskManagement.DiskManager.ReadBlock | srcs/io/disk_manager.cpp:107-127 | Returns the specified bytes or fails; contents and image are unchanged |
| DiskManagement.DiskManager.constructor | srcs/io/disk_manager.cpp:7-30 | The file map holds the torrent's files in order, with joined paths, over whatever the directory holds |
| DiskManagement.SplitJoined | srcs/io/disk_manager.cpp:15-20 | Splitting a joined path at its slashes gives its components back, for any path whose components hold no slash |
| DiskManagement.JoinInjective | srcs/io/disk_manager.cpp:15-20 | So different such paths are joined differently |
| DiskManagement.RegisteredExactly | srcs/io/disk_manager.cpp:14-22 | Each file is registered under its joined path, with its length, behind the lengths of all files before it |
| DiskManagement.LayoutExactly | srcs/io/disk_manager.cpp:13-27 | A torrent without files is one file under its own name; otherwise all its files are registered |
| DiskManagement.LayoutTotal | srcs/io/disk_manager.cpp:13-27 | The file map and the piece layout agree on the torrent's size |
| ReadChunks.ReadInChunksExactly | srcs/peer/peer_connection.cpp:104-140 | From a settled connection, reading a stream in any chunks can lead to exactly the states of manager, disk, peer and send queue that reading it at once can lead to, up to the buffer of a closed connection |
| ReadChunks.ReadOnInChunksExactly | srcs/peer/peer_connection.cpp:104-140 | The same with no assumption on the buffer, for any connection that has been started and read in whatever chunks before |
| Streams.ChunkingDoesNotMatter | srcs/peer/peer_connection.cpp:104-167 | For any split of a stream into chunks the delivered messages, the state, the peer id and, while open, the bytes left over are those of reading the whole stream at once |
| Streams.FeedSettles | srcs/peer/peer_connection.cpp:112-129 | After a read nothing more can be taken off the buffer: fewer than 68 bytes before the handshake, no complete frame after it |
| Streams.StreamDelivers | srcs/peer/peer_connection.cpp:104-167 | A handshake for our torrent, any frames and keep-alives and an incomplete tail, in any chunks: exactly the messages are delivered in order, and the tail is left |
| Streams.DrainedAreFrames | srcs/peer/peer_connection.cpp:119-128 | What the read loop removes is a sequence of whole frames, and what it delivers is their messages |
| Connections.QueuedKeeps | srcs/peer/peer_connection.cpp:69-77 | Queuing appends the frame while connected and nothing otherwise, and keeps: bytes sent ++ buffer = handshake ++ frames in order, and write interest if and only if there are bytes to write |
| Connections.FlushedKeeps | srcs/peer/peer_connection.cpp:92-102 | A partial send of any size keeps the same, moves exactly that many bytes to those sent, and changes no outbound byte |
| Connections.ClosedKeeps | srcs/peer/peer_connection.cpp:58-67 | Closing leaves the connection Disconnected and unregistered, with its buffers |
| Connections.StartedKeeps | srcs/peer/peer_connection.cpp:39-49 | Starting a fresh connection establishes it |
| Connections.QueuedOnWire | srcs/peer/peer_connection.cpp:73-74 | Each queued message's frame stands in the outbound bytes right after the handshake and the frames queued before it |
| Sessions.PeerConnection.Start | srcs/peer/peer_connection.cpp:26-56 | The connection becomes the specified started one, with the 68 handshake bytes queued, or is closed if the socket fails |
| Sessions.PeerConnection.Disconnect | srcs/peer/peer_connection.cpp:58-67 | Closes the connection and keeps both buffers |
| Sessions.PeerConnection.QueueMessage | srcs/peer/peer_connection.cpp:69-77 | Appends the frame and asks for write events while connected, and does nothing otherwise |
| Sessions.PeerConnection.HandleWrite | srcs/peer/peer_connection.cpp:92-102 | Removes exactly the bytes the socket took and drops write interest when none are left |
| Sessions.PeerConnection.ProcessHandshake | srcs/peer/peer_connection.cpp:142-167 | Waits for 68 bytes, then accepts or refuses as specified, leaving the rest in the buffer |
| Sessions.PeerConnection.DeliverMessages | srcs/peer/peer_connection.cpp:118-129 | For frame lengths up to 2^32 - 5: terminates with no complete message left; the reader is the drained one and the shared state has taken one delivery per message |
| Sessions.PeerConnection.HandleRead | srcs/peer/peer_connection.cpp:104-140 | For frame lengths up to 2^32 - 5: the reader becomes the fed one and connection and shared state together take the specified read step |
| Sessions.PeerConnection.OnSocketEvent | srcs/peer/peer_connection.cpp:79-140 | Writes before it reads: the bytes taken are those at the front of the queue; a failed send on a non-empty queue and a failed receive leave the connection closed and unregistered, the former with nothing read; a received chunk is fed to the reader; and the whole is the specified socket step |
| SwarmMessages.PieceMessageExactly | srcs/session/session.cpp:130-151 | For any index, offset and data: handling that Piece message is storing the data under exactly those numbers and then asking for more |
| SwarmMessages.PieceFieldsExactly | srcs/session/session.cpp:131-138 | A message carries a block if and only if its id is 7 and its payload has more than 8 bytes; its piece is the first big-endian word, its offset the second, its data the rest |
| SwarmMessages.MessageCore | srcs/session/session.cpp:89-157 | Only such a message touches disk and history, and only it and Unchoke touch the manager |
| SwarmMessages.StoreBlockExactly | srcs/io/disk_manager.cpp:74 | A stored block patches the image at index * pieceLength + offset, whatever the manager makes of it |
| SwarmMessages.MessageQueues | srcs/session/session.cpp:74-151 | What each id puts on the send queue: up to five Requests after Unchoke, and after a block from a peer that is not choking, fewer only if nothing more may be requested; Interested after each Bitfield and the first Have; nothing otherwise |
| SwarmMessages.MessageFlags | srcs/session/session.cpp:91-121 | What each id does to the three flags |
| Sessions.Session.OnPeerMessage | srcs/session/session.cpp:89-157 | Manager, disk, history, peer flags, bitfield and send queue together take the specified step for the message |
| Sessions.Session.RequestNextBlocks | srcs/session/session.cpp:74-87 | Requests up to five blocks from a peer that is not choking, fewer only if nothing more may be requested |
| Sessions.Session.StorePiece | srcs/session/session.cpp:138-148 | The block is written to disk and then handed to the manager |
| Messages.ParseSerialized | srcs/peer/message.cpp:17-68 | A serialized message parses back, whatever follows it, and takes exactly its own bytes |
| Messages.ParsedIsSerialized | srcs/peer/message.cpp:56-67 | The bytes a parsed frame took are its message's serialization |
| Messages.ParseStable | srcs/peer/message.cpp:35-68 | Later bytes do not change a verdict other than incomplete |
| Messages.ProperPrefixIncomplete | srcs/peer/message.cpp:52-54 | No proper prefix of a frame is taken for a message |
| Messages.OverflowExactly | srcs/peer/message.cpp:42-57 | A complete parse takes at least four bytes, except if and only if the length field exceeds 2^32 - 5, where the consumed count wraps below four |
| Messages.OverflowInstance | srcs/peer/message.cpp:42-57 | The buffer ff ff ff fc counts as complete with a frame size of zero |
| Messages.SerializeMessage | srcs/peer/message.cpp:17-28 | The buffer filled in place is the specified frame |
| Messages.FrameLayout | srcs/peer/message.cpp:17-28 | A frame is the big-endian length of what follows it, the id, and the payload |
| Messages.RequestWords | srcs/piece/piece_manager.cpp:57-71 | A Request has id 6 and its three words, read as big-endian numbers, are index, offset and length |
| Messages.RequestDecodes | srcs/piece/piece_manager.cpp:57-71 | The 12-byte payload decodes to the index, offset and length it was built from |
| Bytes.WriteU32 | srcs/peer/message.cpp:3-8 | Overwrites four bytes with the big-endian word and no others |
| Bytes.WordIsBig | srcs/peer/message.cpp:3-15 | A word read is the number its four bytes write, most significant first, and a word written writes that number |
| Bytes.ReadEncodedU32 | srcs/peer/message.cpp:3-15 | Reading a written word gives the word |
| Bytes.EncodeReadU32 | srcs/peer/message.cpp:3-15 | Writing a read word gives the bytes read |
| Handshakes.DeserializeSerialized | srcs/peer/handshake.cpp:6-45 | Reading a written handshake gives the handshake |
| Handshakes.AcceptedExactly | srcs/peer/handshake.cpp:25-45 | A buffer is accepted if and only if it is the serialization of some handshake, which is then the one returned |
| Handshakes.LayoutExactly | srcs/peer/handshake.cpp:6-23 | The length byte 19, the text "BitTorrent protocol", eight reserved bytes, the info hash at 28 and the peer id at 48, 68 bytes in all |
| Handshakes.SerializeHandshake | srcs/peer/handshake.cpp:6-23 | The 68 bytes copied field by field are the specified layout |
| BencodeTurns.EndsExactly | srcs/bencode/bencode.cpp:3-78 | The decoder ends with a result, for some number of loop turns, if and only if `Decode`, which allows 2 * size + 3 turns, gives that result |
| BencodeTurns.NeverEndsExactly | srcs/bencode/bencode.cpp:3-78 | `Decode` gives none if and only if the decoder never ends, whatever the number of turns |
| BackwardCursor.NeverEnds | srcs/bencode/bencode.cpp:35-40 | On the 22 bytes l18446744073709551595: the decoder never ends |
| BackwardCursor.ReadsPastItsEnd | srcs/bencode/bencode.cpp:35-40 | The 27 bytes l18446744073709551614:abcde are accepted with the cursor at their end, and with one more byte after them the same 27 bytes decode to another value |
| BackwardCursor.MaskedIsLocal | srcs/bencode/bencode.cpp:57-66 | The guard of `DecodeLocal` is not necessary: in d1:a18446744073709551614 1:ai5ee the wrapped string's key is written again, and the value never depends on what follows |
| BencodeWraps.StringAgreesExactly | srcs/bencode/bencode.cpp:29-42 | A string is read as it is meant if and only if its sum does not wrap in 64 bits; one that wraps is accepted, with the rest of the data as its text and the cursor set back before that text |
| BencodeWraps.StringLocalExactly | srcs/bencode/bencode.cpp:29-42 | The value of an accepted string is independent of what follows the data if and only if its sum does not wrap |
| BencodeWraps.DecodesAsMeantExactly | srcs/bencode/bencode.cpp:3-78 | Where no string whose sum wraps is met the decoder does what it is meant to, and so ends; where one is met the whole should be refused; so what the decoder accepts is as it is meant if and only if none is met |
| BencodeLocality.ValueLocalExactly | srcs/bencode/bencode.cpp:3-78 | For every accepted decode: value and cursor stay the same whatever bytes follow the data, if and only if no string cut off at the end of the data is left in the value, as a key, a value or a list item |
| BencodeLocality.NoneMetNoneLeft | srcs/bencode/bencode.cpp:29-42 | Where no string whose sum wraps is met, none is left in the value |
| BencodeWraps.DecodesWithoutWraps | srcs/bencode/bencode.cpp:3-78 | On data that holds no string whose sum wraps, every decode ends and is the one that is meant |
| Bencode.Parse | srcs/bencode/bencode.cpp:3-74 | Allowed any number of turns, agrees with the specification of the written decoder in value, cursor, error and whether it has ended; ending on every input holds only without wrapping sums (see `BencodeWraps.DecodesWithoutWraps`) |
| Bencode.ReadInteger | srcs/bencode/bencode.cpp:10-26 | The integer loop with all its errors, including an empty or lone-minus text and the 64-bit range |
| BencodeEncoding.IntegerExactly | srcs/bencode/bencode.cpp:17-25 | An integer text is accepted, as i, if and only if it is a minus or none, zeros, and the canonical digits of i, and i fits a signed 64-bit word |
| BencodeErrors.ScalarErrors | srcs/bencode/bencode.cpp:4-36 | An input for each way in which a number or a string head is refused |
| BencodeErrors.ContainerErrors | srcs/bencode/bencode.cpp:45-71 | An input for each way in which a list or a dictionary is refused |
| Bencode.ReadString | srcs/bencode/bencode.cpp:29-42 | The string branch with its 64-bit sum, its cut-off text and its cursor; only the leading digits of the length text count |
| Bencode.ReadDict | srcs/bencode/bencode.cpp:57-71 | The dictionary loop, turn by turn and wherever the cursor goes; a later value for a key replaces an earlier one |
| Bencode.ReadList | srcs/bencode/bencode.cpp:45-54 | The list loop, turn by turn and wherever the cursor goes, items in order |
| Bencode.BoundCheckExactly | srcs/bencode/bencode.cpp:35-40 | The string's end lands in the data and not behind its start if and only if the string lies inside the data; if the sum wraps the cursor goes back |
| BencodeWraps.DecodeLocal | srcs/bencode/bencode.cpp:3-74 | Guard: no string whose sum wraps is met. Then a successful decode moves the cursor forward and depends only on the bytes it consumes, wherever they stand |
| BencodeWraps.PrefixFree | srcs/bencode/bencode.cpp:76-78 | Without any guard, also where sums wrap: no text the decoder accepts as a whole is a proper prefix of another |
| BencodeWraps.RunExtended | srcs/bencode/bencode.cpp:3-74 | Without any guard: bytes added after the data change neither that a decode succeeds nor where it stops |
| BencodeEncoding.RoundTrip | srcs/bencode/bencode.cpp:3-78 | For every value with 64-bit integers, decoding its canonical encoding between any prefix and suffix returns it with the cursor exactly at its end |
| BencodeEncoding.AnyKeyOrder | srcs/bencode/bencode.cpp:60-66 | A dictionary written with its keys in any order, also repeated, decodes to the same value |
| BencodeEncoding.EncodeInjective | srcs/bencode/bencode.cpp:3-78 | Different values have different encodings |
| BencodeEncoding.SortedKeysAscend | srcs/bencode/bencode.cpp:57-71 | The encoder writes keys in strictly ascending raw byte order, as BEP 3 asks |
| BencodeEncoding.KeyOrderExactly | srcs/bencode/bencode.cpp:57-71 | That order puts a key before those it begins, and otherwise the first byte that differs decides |
| Metainfo.InfoSliceIsInfo | srcs/torrent/metainfo.cpp:78-88 | If "4:info" stands nowhere before the top-level key, the bytes hashed for a canonical torrent are the encoding of its info value, and decoding there gives that value |
| Metainfo.InfoSliceExactly | srcs/torrent/metainfo.cpp:78-88 | For any file that decodes as it is meant and whose last entry for "info" is entry i, with keys in any order and lengths in any spelling: the bytes hashed are those of that entry's value if and only if they follow the first "4:info" in the file, and decoding them gives the root's info value |
| Metainfo.CanonicalSliceExactly | srcs/torrent/metainfo.cpp:78-88 | For a canonical torrent: there is a first "4:info", and the bytes hashed are the encoding of the info value if and only if it follows there |
| Metainfo.FindsTopLevelExactly | srcs/torrent/metainfo.cpp:17-24 | The search finds the top-level key if and only if "4:info" stands nowhere before it |
| Metainfo.WrongSlice | srcs/torrent/metainfo.cpp:17-24 | A torrent with a comment "4:info" for which six bytes of the comment's own text are hashed |
| Metainfo.FindInfoStart | srcs/torrent/metainfo.cpp:17-24 | The place just past the first "4:info", or nothing if there is none |
| Metainfo.HashInfo | srcs/torrent/metainfo.cpp:76-88 | Hashes exactly the info slice of the written decoder, a backward cursor included, or fails with the step that fails or never ends |
| Metainfo.SplitPieces | srcs/torrent/metainfo.cpp:26-41 | Succeeds if and only if the size is a multiple of 20; the pieces have 20 bytes each and join up to the input |
| Tiers.TrackerManager.TryTier | srcs/tracker/tracker_manager.cpp:47-78 | Tier, minimum interval and peers become the specified ones for any replies |
| Tiers.TrackerManager.Announce | srcs/tracker/tracker_manager.cpp:81-111 | Every tier is asked; the list returned is the first occurrences of all peers gathered |
| Tiers.TrackerManager.ReannounceIfDue | srcs/tracker/tracker_manager.cpp:113-143 | The same for the tiers whose first entry is due, each at its own time |
| Tiers.TrackerManager.constructor | srcs/tracker/tracker_manager.cpp:28-45 | One entry per URL, due at once, tiers without URLs left out |
| Tiers.TierOrder | srcs/tracker/tracker_manager.cpp:50-77 | An answer at index i moves that URL to the front with the others in order; without one the order stays; the multiset of URLs is kept |
| Tiers.RunKeepsUrls | srcs/tracker/tracker_manager.cpp:47-143 | Over any run of calls each tier keeps its multiset of URLs and the minimum interval never grows |
| Tiers.AnswererScheduledExactly | srcs/tracker/tracker_manager.cpp:51-60 | The tracker that answered has its new schedule if and only if it was first already or had that schedule; otherwise the entry that failed just before it gets it, and the tier's due time is the old one |
| Tiers.WrongEntryScheduled | srcs/tracker/tracker_manager.cpp:51-60 | Two trackers, the second answers: it is first with its old schedule and the failed one is scheduled as if it had answered |
| Tiers.BackoffExactly | srcs/tracker/tracker_manager.cpp:68-72 | The wait doubles from two minutes with each failure and is half an hour from the fifth on |
| Tiers.MergedPeersExactly | srcs/tracker/tracker_manager.cpp:96-106 | No address comes back twice, and one comes back if and only if some tier is asked and the first of its trackers to answer, all before it refusing, has it among its peers |
| Tiers.PeersExactly | srcs/tracker/tracker_manager.cpp:50-77 | A tier yields the peers of its first answer, and none if all its trackers refuse |
| Tiers.GatheredInOrder | srcs/tracker/tracker_manager.cpp:99-106 | The answers are merged tier by tier: right before the peers of a tier stand those of all earlier tiers, and no others |
| Tiers.AskedExactly | srcs/tracker/tracker_manager.cpp:99-132 | An announce asks every tier, a re-announce those whose first entry is due |
| Tiers.CallTiersExactly | srcs/tracker/tracker_manager.cpp:99-140 | A call tries each tier that is asked once and leaves the others as they are |
| Tiers.MinAfterCallExactly | srcs/tracker/tracker_manager.cpp:62-63 | The minimum interval after a call is the least of the old one and the positive ones in the first answers of the tiers asked |
| Tiers.TierEntriesExactly | srcs/tracker/tracker_manager.cpp:50-77 | After an answer at index i every entry is accounted for: those before it have failed once more and moved back by one, those after it are untouched, and the one now at index i has the schedule |
| Tiers.AllFailedExactly | srcs/tracker/tracker_manager.cpp:67-76 | If all refuse, each entry has failed once more, in place, and waits 120, 240, 480, 960 or 1800 seconds by its number of failures |
| Tiers.StartTiersExactly | srcs/tracker/tracker_manager.cpp:33-44 | The tiers at the start are the non-empty lists of URLs in order, one entry per URL, due at once, with interval 1800 and no failures |
| Tiers.MergeExactly | srcs/tracker/tracker_manager.cpp:99-106 | The merged list has the same elements, none twice, in the order of first occurrence |

## Left out

- Sockets, DNS, poll, the wake-up pipe and signals: only the interest set and arbitrary send and receive results are modelled.
- HTTP and UDP tracker transports, URL parsing, and the choice of tracker class: a tracker answers or refuses.
- The internals of SHA-1 and peer id generation.
- File streams: opening always succeeds, writes do not fail, and a stream's failure flag does not stick; a read fails only past the end of a file.
- The `open_files_` cache, which only avoids reopening.
- Logging, and lifetimes of shared and weak pointers.
- `Session::fetch_peers`, `start` and `stop`, and `TrackerManager::stop`.
- The rest of `parse_torrent`: reading the file and copying single fields out of the decoded dictionaries.
- Liveness: the source never times out a Requested block, so only bounds and safety are stated.
- `Block` and `ActivePiece` are values that the manager puts back into its map, so references to elements inside the map are not captured.
- Bytes are numbers from 0 to 255; bit tests and shifts are written with division and powers of two.
- 64-bit file offsets and sums of file lengths are unbounded integers, and the 32-bit failure counter of a tracker does not overflow.
- Messages.ParseMessage: when the frame size wraps it yields `Overflow` and reading stops, where the source goes on to copy a payload that is not in the buffer; that is undefined behaviour, so it says when this happens but not what follows.
- Sessions.PeerConnection.DeliverMessages: for frame lengths above 2^32 - 5 the loop just stops, where the source runs into that undefined behaviour.
- Sessions.PeerConnection.HandleRead: the same for a read that brings such a frame.
- BencodeWraps.DecodeLocal: for bytes that stand elsewhere in other data it is one direction only, and `BackwardCursor.MaskedIsLocal` shows that its guard is not necessary; for bytes added behind the data `BencodeLocality.ValueLocalExactly` is exact.
- The depth of the call stack: nesting in bencoded data is unbounded here.
