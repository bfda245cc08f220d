/** A run of the engine that breaks the agreement between the disk and the verified pieces. */
module Overwrite {
  import opened Agreement
  import opened Bytes
  import opened Connections
  import opened Cores
  import opened Messages
  import opened Peers
  import opened Pieces
  import opened Streams
  import opened Swarm
  import opened Torrents
  import opened Wrappers
  import Disks
  import Handshakes

  /** A torrent of one piece of one byte. */
  function OneByte(hash: seq<byte>): Torrent {
    Torrent("one", 1, [hash], 1, [])
  }

  lemma OneByteShape(hash: seq<byte>)
    ensures OneByte(hash).WellFormed()
    ensures Size(OneByte(hash), 0) == 1 && BlockCount(1) == 1 && BlockLength(1, 0) == 1
  {
  }

  const WHOLE_BITFIELD: PeerMessage := PeerMessage(BITFIELD, [128])
  const UNCHOKED: PeerMessage := PeerMessage(UNCHOKE, [])

  function Block0(data: seq<byte>): PeerMessage {
    PieceMessage(0, 0, data)
  }

  lemma Block0Decodes(data: seq<byte>)
    requires data != []
    ensures CarriesBlock(Block0(data))
    ensures PieceIndex(Block0(data)) == 0 && PieceBegin(Block0(data)) == 0 && PieceData(Block0(data)) == data
  {
    var payload := Block0(data).payload;
    assert payload == [0, 0, 0, 0, 0, 0, 0, 0] + data;
    assert payload[4..] == [0, 0, 0, 0] + data;
  }

  lemma HasFirst()
    ensures HasPiece([128], 0)
  {
    assert BitSet(128, 7) by {
      assert BitSet(64, 6) && BitSet(32, 5) && BitSet(16, 4) && BitSet(8, 3);
      assert BitSet(4, 2) && BitSet(2, 1) && BitSet(1, 0);
    }
  }

  lemma NothingWhenCompleted(s: Manager, bits: seq<byte>)
    requires s.active == map[] && s.completed == [true]
    ensures NothingToRequest(s, bits)
  {
  }

  lemma IdleRequest(c: Config, a: Local)
    requires a.conn.peer.peerChoking || NothingToRequest(a.core.mgr, a.conn.peer.bitfield)
    ensures RequestNext(c, a, a)
  {
    if !a.conn.peer.peerChoking {
      assert Requests(c, a, 0, a);
      assert RequestedUpTo(c, a, 0, a);
    }
  }

  const FRESH_BLOCK: Block := Block(0, 0, 1, Missing, [])
  const ASKED_BLOCK: Block := Block(0, 0, 1, Requested, [])

  /** The manager once the one block has been requested. */
  const ASKED: Manager := Manager(map[0 := ActivePiece(0, 1, 0, [ASKED_BLOCK])], [false])

  lemma FreshShape(hash: seq<byte>)
    ensures OneByte(hash).WellFormed()
    ensures FreshPiece(OneByte(hash), 0) == ActivePiece(0, 1, 0, [FRESH_BLOCK])
    ensures InitManager(OneByte(hash)) == Manager(map[], [false])
  {
    OneByteShape(hash);
    hide Torrent.WellFormed, Size, BlockCount, BlockLength;
  }

  lemma PicksFirst(t: Torrent, hash: seq<byte>)
    requires t == OneByte(hash)
    ensures Inv(t, InitManager(t))
    ensures RequestStep(t, InitManager(t), [128], ASKED, Some(Pick(0, 0)))
  {
    FreshShape(hash);
    OneByteShape(hash);
    InitInv(t);
    HasFirst();
    FreshPieceGood(t, 0);
    hide Torrent.WellFormed, Size, BlockCount, BlockLength, Inv, FreshPiece, InitManager, HasPiece;
    var s, k := Manager(map[], [false]), Pick(0, 0);
    assert Openable(s, [128], 0);
    assert MayPick(s, [128], k);
    var o := Opened(t, s, 0);
    assert o == Manager(map[0 := ActivePiece(0, 1, 0, [FRESH_BLOCK])], [false]);
    assert [FRESH_BLOCK][0 := ASKED_BLOCK] == [ASKED_BLOCK];
    assert AfterPick(t, s, k).active == ASKED.active;
  }

  lemma NothingMore()
    ensures NothingToRequest(ASKED, [128])
  {
    forall p: nat
      ensures !HasMissing(ASKED, [128], p) && !Openable(ASKED, [128], p)
    {
    }
  }

  /** Unchoked by a peer that has the piece, the session asks for its one block. */
  lemma AsksForBlock(c: Config, hash: seq<byte>, a: Local) returns (b: Local)
    requires c.torrent == OneByte(hash)
    requires a.core.mgr == InitManager(c.torrent)
    requires a.conn.IsConnected() && !a.conn.peer.peerChoking && a.conn.peer.bitfield == [128]
    ensures RequestNext(c, a, b)
    ensures b.core == a.core.(mgr := ASKED) && Inv(c.torrent, ASKED)
    ensures b.conn.IsConnected() && b.conn.peer == a.conn.peer
  {
    hide Torrent.WellFormed, Size, Inv, RequestStep, BlockRequest, RequestNext, NothingToRequest, InitManager;
    PicksFirst(c.torrent, hash);
    RequestStepKeepsInv(c.torrent, a.core.mgr, [128], ASKED, Some(Pick(0, 0)));
    NothingMore();
    FirstRequestFits(hash);
    var k := Pick(0, 0);
    b := Local(a.core.(mgr := ASKED), Queued(a.conn, BlockRequest(c.torrent, k)));
    assert RequestOne(c, a, k, b);
    OneRequest(c, a, k, b);
  }

  lemma FirstRequestFits(hash: seq<byte>)
    ensures OneByte(hash).WellFormed() && |OneByte(hash).pieces| == 1
    ensures 0 < BlockCount(Size(OneByte(hash), 0))
    ensures Frameable(BlockRequest(OneByte(hash), Pick(0, 0)))
  {
    OneByteShape(hash);
    hide Torrent.WellFormed, Size;
  }

  lemma OneRequest(c: Config, a: Local, k: Pick, b: Local)
    requires !a.conn.peer.peerChoking && RequestOne(c, a, k, b) && NothingToRequest(b.core.mgr, b.conn.peer.bitfield)
    ensures RequestNext(c, a, b)
  {
    hide RequestOne, NothingToRequest;
    assert Requests(c, a, 0, a);
    assert Requests(c, a, 1, b);
    assert RequestedUpTo(c, a, 1, b);
  }

  lemma CompletesPiece(c: Config, hash: seq<byte>, core: Core, x: byte)
    requires c.torrent == OneByte(hash) && CoreOk(c, core)
    requires core.mgr == ASKED && core.log == []
    requires c.sha1([x]) == hash
    ensures StoreBlock(c, core, 0, 0, [x]) == Completed(x, x, core.writes + [Disks.Write(0, [x])])
  {
    hide Torrent.WellFormed, Inv;
    var after := WithData(core.mgr.active[0], 0, [x]);
    assert after.blocks == [Block(0, 0, 1, Downloaded, [x])];
    assert after.blocks[..0] == [];
    assert Joined(after.blocks) == [x];
    assert core.mgr.active - {0} == map[];
    assert Disks.Patch(core.image, 0, [x]) == [x];
  }

  lemma IgnoredButWritten(c: Config, hash: seq<byte>, core: Core, y: byte)
    requires c.torrent == OneByte(hash) && CoreOk(c, core) && core.mgr == Manager(map[], [true])
    ensures StoreBlock(c, core, 0, 0, [y]) == core.(image := [y], writes := core.writes + [Disks.Write(0, [y])])
  {
    assert Disks.Patch(core.image, 0, [y]) == [y];
    assert core.log + [] == core.log;
  }

  /** The shared state once the piece has been completed, and once it has been overwritten. */
  function Completed(x: byte, onDisk: byte, writes: seq<Disks.Write>): Core {
    Core(Manager(map[], [true]), [onDisk], [Accepted(0), Finished(0, [x])], writes)
  }

  /** The first Piece message completes the piece, and nothing is left to request. */
  lemma CompletingStep(c: Config, hash: seq<byte>, a: Local, x: byte) returns (b: Local)
    requires c.torrent == OneByte(hash) && c.sha1([x]) == hash
    requires CoreOk(c, a.core) && a.core.log == [] && a.core.mgr == ASKED
    ensures MessageStep(c, a, Block0([x]), b) && b.conn == a.conn
    ensures b.core == Completed(x, x, b.core.writes) && CoreOk(c, b.core)
  {
    hide Torrent.WellFormed, Inv, RequestNext, StoreBlock, Block0, PieceIndex, PieceBegin, PieceData, NothingToRequest;
    Block0Decodes([x]);
    CompletesPiece(c, hash, a.core, x);
    StoreBlockOk(c, a.core, 0, 0, [x]);
    b := a.(core := StoreBlock(c, a.core, 0, 0, [x]));
    NothingWhenCompleted(b.core.mgr, a.conn.peer.bitfield);
    IdleRequest(c, b);
  }

  /** The second one is ignored by the manager, but written. */
  lemma OverwritingStep(c: Config, hash: seq<byte>, a: Local, x: byte, y: byte) returns (b: Local)
    requires c.torrent == OneByte(hash) && CoreOk(c, a.core) && a.core == Completed(x, x, a.core.writes)
    ensures MessageStep(c, a, Block0([y]), b) && b.core == Completed(x, y, b.core.writes)
  {
    hide Torrent.WellFormed, Inv, RequestNext, StoreBlock, Block0, PieceIndex, PieceBegin, PieceData, NothingToRequest;
    Block0Decodes([y]);
    IgnoredButWritten(c, hash, a.core, y);
    b := a.(core := StoreBlock(c, a.core, 0, 0, [y]));
    NothingWhenCompleted(b.core.mgr, a.conn.peer.bitfield);
    IdleRequest(c, b);
  }

  // ---- the run ----

  /** The only connection's state after a message has been taken off its buffer. */
  function Taken(a: Local, mid: Local, m: PeerMessage, rest: seq<byte>): Local {
    WithReader(mid, a.conn.reader.(buffer := rest, delivered := a.conn.reader.delivered + [m]))
  }

  lemma Delivers(c: Config, a: Local, m: PeerMessage, mid: Local, rest: seq<byte>)
    requires a.conn.IsConnected() && Frameable(m) && a.conn.reader.buffer == Serialize(m) + rest
    requires MessageStep(c, a, m, mid)
    ensures DeliverOne(c, a, Taken(a, mid, m, rest))
  {
    hide MessageStep, Serialize, ParseMessage;
    TakeItem(a.conn.reader, Said(m), rest);
    ParseSerialized(m, rest);
  }

  /** The frames a peer sends: all pieces, unchoke, and the one block twice. */
  function Frames(x: byte, y: byte): seq<byte> {
    Serialize(WHOLE_BITFIELD) + (Serialize(UNCHOKED) + (Serialize(Block0([x])) + (Serialize(Block0([y])) + [])))
  }

  function Greeting(theirs: Handshakes.Handshake, x: byte, y: byte): seq<byte>
    requires theirs.Valid()
  {
    Handshakes.Serialize(theirs) + Frames(x, y)
  }

  /** The connection once the handshakes have been exchanged. */
  function Open(core: Core, hello: Handshakes.Handshake, theirs: Handshakes.Handshake, x: byte, y: byte): Local
    requires hello.Valid()
  {
    var started := Started(FRESH_CONN, Handshakes.Serialize(hello));
    Local(core, started.(reader := Reader(Connected, Frames(x, y), Some(theirs.peerId), [])))
  }

  /** One more action of the only connection. */
  lemma OneConnAct(c: Config, infoHash: seq<byte>, states: seq<System>, acts: seq<Action>, act: Action, a: Local,
                   b: Local)
    requires Acts(c, infoHash, states, acts) && states[|acts|] == System(a.core, [a.conn])
    requires act.k == 0 && LocalStep(c, infoHash, a, act, b)
    ensures Acts(c, infoHash, states + [System(b.core, [b.conn])], acts + [act])
  {
    hide LocalStep, Next;
    var s := states[|acts|];
    assert s.At(0) == a;
    OneMoreAct(c, infoHash, states, acts, act, 0, b);
    assert s.With(0, b) == System(b.core, [b.conn]);
  }

  /** The bytes from the start of the connection to the end of its handshake. */
  lemma Opens(c: Config, infoHash: seq<byte>, core: Core, hello: Handshakes.Handshake, theirs: Handshakes.Handshake,
              x: byte, y: byte)
    returns (states: seq<System>, acts: seq<Action>)
    requires hello.Valid() && theirs.Valid() && theirs.infoHash == infoHash
    ensures acts == [Start(0, hello), Arrive(0, Greeting(theirs, x, y)), Shake(0)]
    ensures Acts(c, infoHash, states, acts) && states[0] == System(core, [FRESH_CONN])
    ensures states[3] == System(core, [Open(core, hello, theirs, x, y).conn])
  {
    hide Handshakes.Serialize, Handshakes.Deserialize, Frames, Next;
    var stream := Greeting(theirs, x, y);
    var b0 := Local(core, FRESH_CONN);
    var b1 := Local(core, Started(FRESH_CONN, Handshakes.Serialize(hello)));
    var b2 := WithReader(b1, b1.conn.reader.(buffer := stream));
    var b3 := Open(core, hello, theirs, x, y);
    states, acts := [System(core, [FRESH_CONN])], [];
    OneConnAct(c, infoHash, states, acts, Start(0, hello), b0, b1);
    states, acts := states + [System(core, [b1.conn])], acts + [Start(0, hello)];
    assert [] + stream == stream;
    OneConnAct(c, infoHash, states, acts, Arrive(0, stream), b1, b2);
    states, acts := states + [System(core, [b2.conn])], acts + [Arrive(0, stream)];
    Handshakes.DeserializeSerialized(theirs);
    assert stream[..Handshakes.HANDSHAKE_SIZE] == Handshakes.Serialize(theirs);
    assert stream[Handshakes.HANDSHAKE_SIZE..] == Frames(x, y);
    OneConnAct(c, infoHash, states, acts, Shake(0), b2, b3);
    states, acts := states + [System(core, [b3.conn])], acts + [Shake(0)];
  }

  /** The four deliveries. */
  lemma Deliveries(c: Config, hash: seq<byte>, a: Local, x: byte, y: byte) returns (b: seq<Local>)
    requires c.torrent == OneByte(hash) && c.sha1([x]) == hash && CoreOk(c, a.core)
    requires a.core.mgr == InitManager(c.torrent) && a.core.log == []
    requires a.conn.IsConnected() && a.conn.peer == FRESH_PEER && a.conn.reader.buffer == Frames(x, y)
    ensures |b| == 5 && b[0] == a
    ensures forall i :: 0 <= i < 4 ==> DeliverOne(c, b[i], b[i + 1])
    ensures b[3].core == Completed(x, x, b[3].core.writes) && b[4].core == Completed(x, y, b[4].core.writes)
    ensures CoreOk(c, b[3].core)
  {
    hide Torrent.WellFormed, Inv, InitManager, MessageStep, Serialize, DeliverOne, CoreOk;
    var f4 := Serialize(Block0([y])) + [];
    var f3 := Serialize(Block0([x])) + f4;
    var f2 := Serialize(UNCHOKED) + f3;
    var m1 := BitfieldStep(c, a);
    var a1 := Taken(a, m1, WHOLE_BITFIELD, f2);
    Delivers(c, a, WHOLE_BITFIELD, m1, f2);
    var m2 := UnchokeStep(c, hash, a1);
    var a2 := Taken(a1, m2, UNCHOKED, f3);
    Delivers(c, a1, UNCHOKED, m2, f3);
    var m3 := CompletingStep(c, hash, a2, x);
    var a3 := Taken(a2, m3, Block0([x]), f4);
    Delivers(c, a2, Block0([x]), m3, f4);
    var m4 := OverwritingStep(c, hash, a3, x, y);
    Delivers(c, a3, Block0([y]), m4, []);
    b := [a, a1, a2, a3, Taken(a3, m4, Block0([y]), [])];
  }

  lemma BitfieldStep(c: Config, a: Local) returns (b: Local)
    requires CoreOk(c, a.core) && a.conn.IsConnected()
    ensures MessageStep(c, a, WHOLE_BITFIELD, b) && b.core == a.core && b.conn.IsConnected()
    ensures b.conn.peer == a.conn.peer.(bitfield := [128])
  {
    hide CoreOk, Serialize;
    b := AfterBitfield(a, [128]);
  }

  lemma UnchokeStep(c: Config, hash: seq<byte>, a: Local) returns (b: Local)
    requires c.torrent == OneByte(hash) && CoreOk(c, a.core) && a.core.mgr == InitManager(c.torrent)
    requires a.conn.IsConnected() && a.conn.peer.bitfield == [128]
    ensures MessageStep(c, a, UNCHOKED, b) && b.core == a.core.(mgr := ASKED) && CoreOk(c, b.core)
    ensures b.conn.IsConnected()
  {
    hide Torrent.WellFormed, Inv, InitManager, RequestNext;
    b := AsksForBlock(c, hash, WithPeer(a, a.conn.peer.(peerChoking := false)));
  }

  lemma DeliveriesAct(c: Config, infoHash: seq<byte>, b: seq<Local>) returns (states: seq<System>, acts: seq<Action>)
    requires |b| == 5 && forall i :: 0 <= i < 4 ==> DeliverOne(c, b[i], b[i + 1])
    ensures |states| == 5 && (forall i :: 0 <= i < 5 ==> states[i] == System(b[i].core, [b[i].conn]))
    ensures acts == [Deliver(0), Deliver(0), Deliver(0), Deliver(0)]
    ensures Acts(c, infoHash, states, acts)
  {
    hide DeliverOne, Next;
    states := seq(5, i requires 0 <= i < 5 => System(b[i].core, [b[i].conn]));
    acts := [];
    OneConnAct(c, infoHash, states[..1], acts, Deliver(0), b[0], b[1]);
    OneConnAct(c, infoHash, states[..1] + [states[1]], [Deliver(0)], Deliver(0), b[1], b[2]);
    acts := [Deliver(0), Deliver(0)];
    OneConnAct(c, infoHash, states[..1] + [states[1]] + [states[2]], acts, Deliver(0), b[2], b[3]);
    acts := acts + [Deliver(0)];
    OneConnAct(c, infoHash, states[..1] + [states[1]] + [states[2]] + [states[3]], acts, Deliver(0), b[3], b[4]);
    acts := acts + [Deliver(0)];
    assert states == states[..1] + [states[1]] + [states[2]] + [states[3]] + [states[4]];
  }

  /** Write before verify: a run in which one peer greets us, announces its piece, unchokes us and sends
      its block, which completes the piece, and then sends the block again with another byte. In the
      end the piece counts as completed, its bytes were hashed and matched, and the disk holds the
      other byte. */
  lemma OverwriteAfterCompletion(sha1: seq<byte> -> seq<byte>, x: byte, y: byte, first: byte, infoHash: seq<byte>,
                                 hello: Handshakes.Handshake, theirs: Handshakes.Handshake)
    returns (c: Config, run: seq<System>, acts: seq<Action>)
    requires x != y && hello.Valid() && theirs.Valid() && theirs.infoHash == infoHash
    ensures c.sha1 == sha1 && c.torrent == OneByte(sha1([x])) && c.torrent.WellFormed()
    ensures IsRun(c, infoHash, run, acts) && run[0].core.image == [first]
    ensures acts == [Start(0, hello), Arrive(0, Greeting(theirs, x, y)), Shake(0),
                     Deliver(0), Deliver(0), Deliver(0), Deliver(0)]
    ensures run[6].core.mgr.completed == [true] && run[6].core.image == [x] && sha1([x]) == c.torrent.pieces[0]
    ensures Agree(c, run[6].core)
    ensures run[7].core.mgr.completed == [true] && run[7].core.image == [y]
    ensures !Agree(c, run[7].core)
  {
    hide Torrent.WellFormed, Inv, Agree, InitManager, Next, DeliverOne, Handshakes.Serialize, Frames, Greeting;
    var hash := sha1([x]);
    c := Config(OneByte(hash), sha1);
    OneByteShape(hash);
    InitInv(c.torrent);
    var core := Core(InitManager(c.torrent), [first], [], []);
    var open := Open(core, hello, theirs, x, y);
    run, acts := Opens(c, infoHash, core, hello, theirs, x, y);
    assert Init(c, run[0]);
    var b := Deliveries(c, hash, open, x, y);
    var later, more := DeliveriesAct(c, infoHash, b);
    JoinActs(c, infoHash, run, acts, later, more);
    run, acts := run + later[1..], acts + more;
    AgreesOnlyBefore(c, hash, b[3].core, b[4].core, x, y);
  }

  lemma AgreesOnlyBefore(c: Config, hash: seq<byte>, core: Core, after: Core, x: byte, y: byte)
    requires c.torrent == OneByte(hash) && CoreOk(c, core) && x != y
    requires core == Completed(x, x, core.writes) && after == Completed(x, y, after.writes)
    ensures Agree(c, core) && !Agree(c, after)
  {
    OneByteShape(hash);
    hide Torrent.WellFormed, Size, Inv;
    assert PieceBytes(c.torrent, [x], 0) == [x];
    assert PieceBytes(c.torrent, [y], 0) == [y];
    assert Finished(0, [x]) in after.log;
    assert CoreOk(c, after) && !PieceAgrees(c, after, 0, [x]);
  }
}
