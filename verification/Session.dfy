/** Connections and the session as objects, carrying out the steps of `Swarm`. */
module Sessions {
  import opened Bytes
  import opened Connections
  import opened Cores
  import opened DiskManagement
  import opened Messages
  import opened Peers
  import opened PieceManagement
  import opened Pieces
  import opened Streams
  import opened Swarm
  import opened Torrents
  import opened Wrappers
  import Disks
  import FileMaps
  import Handshakes

  /** What the socket does with a send and with a receive. An empty receive means that no bytes
      are there yet. */
  datatype SendResult = Took(n: nat) | SendFailed
  datatype RecvResult = Received(chunk: seq<byte>) | RecvFailed

  datatype Verdict = Waiting | Welcome | Refused

  predicate WriteFails(x: Conn, writable: Option<SendResult>) {
    writable == Some(SendFailed) && x.writeBuffer != []
  }

  /** What one poll result leads to: writing first, then reading; a failed send closes the
      connection and nothing is read. */
  ghost predicate SocketStep(c: Config, infoHash: seq<byte>, a: Local, writable: Option<SendResult>,
                             readable: Option<RecvResult>, b: Local)
    requires writable.Some? && writable.value.Took? ==> writable.value.n <= |a.conn.writeBuffer|
  {
    if WriteFails(a.conn, writable) then b == a.(conn := Closed(a.conn))
    else
      var w := match writable
               case Some(Took(n)) => a.(conn := Flushed(a.conn, n))
               case _ => a;
      match readable
      case None => b == w
      case Some(RecvFailed) => b == w.(conn := Closed(w.conn))
      case Some(Received(chunk)) => if chunk == [] then b == w else ReadStep(c, infoHash, w, chunk, b)
  }

  /** One poll result is a stretch of actions of the system, so runs cover whole socket events. */
  lemma SocketIsActions(c: Config, infoHash: seq<byte>, s: System, k: nat, writable: Option<SendResult>,
                        readable: Option<RecvResult>, b: Local)
    returns (states: seq<System>, acts: seq<Action>)
    requires k < |s.conns| && !s.conns[k].reader.state.Disconnected?
    requires writable.Some? && writable.value.Took? ==> writable.value.n <= |s.conns[k].writeBuffer|
    requires SocketStep(c, infoHash, s.At(k), writable, readable, b)
    ensures Acts(c, infoHash, states, acts) && states[0] == s && states[|acts|] == s.With(k, b)
  {
    hide Next, ReadStep, Flushed, Closed;
    states, acts := [s], [];
    if WriteFails(s.conns[k], writable) {
      OneMoreAct(c, infoHash, states, acts, Close(k), k, b);
      return states + [s.With(k, b)], acts + [Close(k)];
    }
    var w := s.At(k);
    WithSame(s, k);
    if writable.Some? && writable.value.Took? {
      w := w.(conn := Flushed(w.conn, writable.value.n));
      FlushedStaysOpen(s.conns[k], writable.value.n);
      OneMoreAct(c, infoHash, states, acts, Flush(k, writable.value.n), k, w);
      states, acts := states + [s.With(k, w)], acts + [Flush(k, writable.value.n)];
    }
    WithAgain(s, k, w, b);
    if readable == Some(RecvFailed) {
      OneMoreAct(c, infoHash, states, acts, Close(k), k, b);
      states, acts := states + [s.With(k, b)], acts + [Close(k)];
    } else if readable.Some? && readable.value.chunk != [] {
      var later, more := ReadIsActions(c, infoHash, s.With(k, w), k, readable.value.chunk, b);
      JoinActs(c, infoHash, states, acts, later, more);
      states, acts := states + later[1..], acts + more;
    }
  }

  lemma FlushedStaysOpen(x: Conn, n: nat)
    requires n <= |x.writeBuffer|
    ensures Flushed(x, n).reader == x.reader
  {
  }

  class PeerConnection {
    const peer: Peer
    const infoHash: seq<byte>
    const myPeerId: seq<byte>
    var state: ConnectionState
    var interest: Interest
    var readBuffer: seq<byte>
    var writeBuffer: seq<byte>

    ghost var hello: seq<byte>
    ghost var queued: seq<PeerMessage>
    ghost var sent: seq<byte>
    ghost var delivered: seq<PeerMessage>

    ghost function ReaderView(): Reader
      reads this, peer
    {
      Reader(state, readBuffer, if peer.idSet then Some(peer.id) else None, delivered)
    }

    ghost function View(): Conn
      reads this, peer
    {
      Conn(ReaderView(), peer.View(), hello, queued, sent, writeBuffer, interest)
    }

    constructor (infoHash: seq<byte>, myPeerId: seq<byte>)
      ensures fresh(peer) && this.infoHash == infoHash && this.myPeerId == myPeerId
      ensures View() == FRESH_CONN
    {
      this.infoHash := infoHash;
      this.myPeerId := myPeerId;
      peer := new Peer();
      state := Disconnected;
      interest := Unregistered;
      readBuffer, writeBuffer := [], [];
      hello, queued, sent, delivered := [], [], [], [];
    }

    /** Connects and queues the handshake; `reserved` is whatever its eight uninitialised bytes
        hold, and `connects` whether the socket could be opened. */
    method Start(reserved: seq<byte>, connects: bool)
      requires |reserved| == 8 && |infoHash| == 20 && |myPeerId| == 20
      modifies this
      ensures View() ==
              if connects then
                Started(old(View()), Handshakes.Serialize(Handshakes.Handshake(reserved, infoHash, myPeerId)))
              else
                Closed(old(View()))
    {
      if !connects {
        Disconnect();
        return;
      }
      interest := ReadWrite;
      var handshake := Handshakes.Handshake(reserved, infoHash, myPeerId);
      var buf := Handshakes.SerializeHandshake(handshake);
      writeBuffer := writeBuffer + buf[..];
      hello := buf[..];
      state := HandshakeSent;
    }

    method Disconnect()
      modifies this`state, this`interest
      ensures View() == Closed(old(View()))
    {
      if state == Disconnected {
        return;
      }
      interest := Unregistered;
      state := Disconnected;
    }

    method QueueMessage(m: PeerMessage)
      requires Frameable(m)
      modifies this`writeBuffer, this`interest, this`queued
      ensures View() == Queued(old(View()), m)
    {
      if state != Connected {
        return;
      }
      var buf := SerializeMessage(m);
      writeBuffer := writeBuffer + buf[..];
      queued := queued + [m];
      interest := ReadWrite;
    }

    /** Offers the queue to the socket; fails only when the socket does. */
    method HandleWrite(result: SendResult) returns (ok: bool)
      requires result.Took? ==> result.n <= |writeBuffer|
      modifies this`writeBuffer, this`interest, this`sent
      ensures ok <==> writeBuffer == old(writeBuffer) == [] || result.Took?
      ensures sent == old(sent) + if result.Took? then old(writeBuffer)[..result.n] else []
      ensures View() == if result.Took? then Flushed(old(View()), result.n) else old(View())
    {
      if writeBuffer == [] {
        return true;
      }
      if result.SendFailed? {
        return false;
      }
      var n := result.n;
      sent := sent + writeBuffer[..n];
      if n > 0 {
        writeBuffer := writeBuffer[n..];
      }
      if writeBuffer == [] {
        interest := ReadOnly;
      }
      return true;
    }

    /** Takes the peer's handshake off the buffer once it is complete. */
    method ProcessHandshake() returns (verdict: Verdict)
      requires state.HandshakeSent?
      modifies this`state, this`readBuffer, peer`id, peer`idSet
      ensures verdict.Refused? <==> Greet(infoHash, old(ReaderView())).state.Disconnected?
      ensures verdict.Welcome? <==> Greet(infoHash, old(ReaderView())).state.Connected?
      ensures !verdict.Refused? ==> ReaderView() == Greet(infoHash, old(ReaderView()))
      ensures verdict.Refused? ==> ReaderView() == old(ReaderView())
      ensures peer.View() == old(peer.View())
    {
      if |readBuffer| < Handshakes.HANDSHAKE_SIZE {
        return Waiting;
      }
      var parsed := Handshakes.Deserialize(readBuffer[..Handshakes.HANDSHAKE_SIZE]);
      match parsed
      case Err(_) => return Refused;
      case Ok(h) =>
        if h.infoHash != infoHash {
          return Refused;
        }
        peer.id := h.peerId;
        peer.idSet := true;
        state := Connected;
        readBuffer := readBuffer[Handshakes.HANDSHAKE_SIZE..];
        return Welcome;
    }

    /** One turn of the read loop: the next complete message, if there is one, is handled and then
        erased. */
    method DeliverNext(session: Session) returns (more: bool)
      requires session.Valid() && state.Connected?
      modifies this, peer, session`log, session`writes
      modifies session.pieceMgr`activePieces, session.pieceMgr.picker, session.disk`store
      ensures session.Valid() && state.Connected?
      ensures more <==> Ready(old(readBuffer))
      ensures sent == old(sent)
      ensures more ==> |readBuffer| < |old(readBuffer)| && View().reader == TakeOne(old(ReaderView()))
      ensures more ==> DeliverOne(session.config, old(Local(session.Core(), View())), Local(session.Core(), View()))
      ensures !more ==> Local(session.Core(), View()) == old(Local(session.Core(), View()))
    {
      hide MessageStep, Torrent.WellFormed, Inv, DeliverOne, TakeOne, ParseMessage, Disks.AfterWrites;
      ghost var mid, reader := Local(session.Core(), View()), ReaderView();
      TakeOneShrinks(reader);
      var parsed := ParseMessage(readBuffer);
      if parsed.Incomplete? || parsed.Overflow? {
        return false;
      }
      if parsed.Frame? {
        session.OnPeerMessage(this, parsed.message);
      }
      ghost var handled := Local(session.Core(), View());
      assert handled.conn.reader == reader;
      TakeOff(parsed);
      DeliveredBy(session.config, mid, handled, Local(session.Core(), View()));
      return true;
    }

    /** Delivers every complete message in the read buffer to the session. */
    method DeliverMessages(session: Session)
      requires session.Valid() && state.Connected?
      modifies this, peer, session`log, session`writes
      modifies session.pieceMgr`activePieces, session.pieceMgr.picker, session.disk`store
      ensures session.Valid()
      ensures !Ready(View().reader.buffer) && sent == old(sent)
      ensures View().reader == Drain(old(View().reader))
      ensures exists n ::
                DeliverSome(session.config, old(Local(session.Core(), View())), n, Local(session.Core(), View()))
    {
      hide DeliverOne, Drain, TakeOne, Ready, Torrent.WellFormed, Inv, Disks.AfterWrites;
      ghost var a := Local(session.Core(), View());
      ghost var n := 0;
      while true
        invariant session.Valid() && state.Connected? && sent == old(sent)
        invariant DeliverSome(session.config, a, n, Local(session.Core(), View()))
        invariant Drain(View().reader) == Drain(a.conn.reader)
        decreases |readBuffer|
      {
        ghost var reader := ReaderView();
        var more := DeliverNext(session);
        if !more {
          DrainStops(reader);
          break;
        }
        DrainContinues(reader);
        n := n + 1;
      }
    }

    /** Erases a complete message from the front of the buffer. */
    method TakeOff(parsed: Parsed)
      requires parsed == ParseMessage(readBuffer) && (parsed.Frame? || parsed.KeepAlive?)
      modifies this`readBuffer, this`delivered
      ensures View() == old(View()).(reader := TakeOne(old(ReaderView())))
    {
      if parsed.Frame? {
        delivered := delivered + [parsed.message];
        readBuffer := readBuffer[parsed.consumed..];
      } else {
        readBuffer := readBuffer[4..];
      }
    }

    lemma DeliveredBy(c: Config, a: Local, handled: Local, b: Local)
      requires a.conn.IsConnected() && Ready(a.conn.reader.buffer)
      requires if ParseMessage(a.conn.reader.buffer).KeepAlive? then handled == a
               else MessageStep(c, a, ParseMessage(a.conn.reader.buffer).message, handled)
      requires b == WithReader(handled, TakeOne(a.conn.reader))
      ensures DeliverOne(c, a, b)
    {
      hide MessageStep;
    }

    lemma ClosedFields(x: Conn)
      requires !x.reader.state.Disconnected?
      ensures Closed(x) == x.(reader := x.reader.(state := Disconnected), interest := Unregistered)
    {
    }

    lemma TakeOneShrinks(r: Reader)
      ensures Ready(r.buffer) ==> |TakeOne(r).buffer| < |r.buffer| && TakeOne(r).state == r.state
    {
    }

    lemma DrainStops(r: Reader)
      requires !Ready(r.buffer)
      ensures Drain(r) == r
    {
    }

    lemma DrainContinues(r: Reader)
      requires Ready(r.buffer)
      ensures Drain(r) == Drain(TakeOne(r))
    {
    }

    /** A readable socket: whatever it yields is taken in, greeted and delivered. */
    method HandleRead(session: Session, result: RecvResult)
      requires session.Valid() && !state.Disconnected?
      modifies this, peer, session`log, session`writes
      modifies session.pieceMgr`activePieces, session.pieceMgr.picker, session.disk`store
      ensures session.Valid() && sent == old(sent)
      ensures result.RecvFailed? ==> View() == Closed(old(View())) && session.Core() == old(session.Core())
      ensures result.Received? && result.chunk != [] ==>
                && View().reader == Feed(infoHash, old(View().reader), result.chunk)
                && ReadStep(session.config, infoHash, old(Local(session.Core(), View())), result.chunk,
                            Local(session.Core(), View()))
      ensures result == Received([]) ==> View() == old(View()) && session.Core() == old(session.Core())
    {
      hide DeliverSome, Torrent.WellFormed, Inv, Greet, Drain, Disks.AfterWrites;
      if result.RecvFailed? {
        Disconnect();
        return;
      }
      if result.chunk == [] {
        return;
      }
      readBuffer := readBuffer + result.chunk;
      if state == HandshakeSent {
        GreetStates(infoHash, ReaderView());
        var verdict := ProcessHandshake();
        if verdict.Refused? {
          Disconnect();
          return;
        }
        if verdict.Waiting? {
          return;
        }
      }
      DeliverMessages(session);
    }

    lemma GreetStates(infoHash: seq<byte>, r: Reader)
      requires r.state.HandshakeSent?
      ensures Greet(infoHash, r).state.Disconnected? ==> Greet(infoHash, r) == r.(state := Disconnected)
    {
    }

    /** Dispatch of one poll result. */
    method OnSocketEvent(session: Session, writable: Option<SendResult>, readable: Option<RecvResult>)
      requires session.Valid() && !state.Disconnected?
      requires writable.Some? && writable.value.Took? ==> writable.value.n <= |writeBuffer|
      modifies this, peer, session`log, session`writes
      modifies session.pieceMgr`activePieces, session.pieceMgr.picker, session.disk`store
      ensures session.Valid()
      ensures SocketStep(session.config, infoHash, old(Local(session.Core(), View())), writable, readable,
                         Local(session.Core(), View()))
      ensures readable == Some(RecvFailed) ==> state.Disconnected? && interest.Unregistered?
      ensures writable == Some(SendFailed) && old(writeBuffer) != [] ==>
                && state.Disconnected? && interest.Unregistered?
                && readBuffer == old(readBuffer) && delivered == old(delivered) && session.Core() == old(session.Core())
      ensures (writable == Some(SendFailed) ==> old(writeBuffer) == []) && readable.Some?
              && readable.value.Received? ==>
                View().reader == if readable.value.chunk == [] then old(View().reader)
                                 else Feed(infoHash, old(View().reader), readable.value.chunk)
      ensures (writable == Some(SendFailed) ==> old(writeBuffer) == []) && readable.None? ==>
                View().reader == old(View().reader)
      ensures sent == old(sent) + if writable.Some? && writable.value.Took? then old(writeBuffer)[..writable.value.n]
              else []
    {
      hide Torrent.WellFormed, Inv, ReadStep, Feed, Flushed, Closed, Disks.AfterWrites;
      if writable.Some? {
        var ok := HandleWrite(writable.value);
        if !ok {
          ClosedFields(View());
          Disconnect();
          return;
        }
      }
      if readable.Some? {
        ClosedFields(View());
        HandleRead(session, readable.value);
      }
    }
  }

  class Session {
    const config: Config
    const pieceMgr: PieceManager
    const disk: DiskManager
    ghost const initial: Disks.Store
    ghost var log: seq<Event>
    ghost var writes: seq<Disks.Write>

    ghost predicate Valid()
      reads this, pieceMgr, pieceMgr.picker, disk, disk.fileMap
    {
      && pieceMgr.Valid() && disk.Valid()
      && pieceMgr.config == config && disk.torrent == config.torrent
      && disk.store == Disks.AfterWrites(disk.fileMap.files, initial, writes)
    }

    ghost function Core(): Core
      requires Valid()
      reads this, pieceMgr, pieceMgr.picker, disk, disk.fileMap
    {
      Cores.Core(pieceMgr.View(), disk.Flat(), log, writes)
    }

    constructor (config: Config, existing: Disks.Store)
      requires config.torrent.WellFormed() && FileMaps.DistinctPaths(Layout(config.torrent))
      ensures Valid() && this.config == config
      ensures fresh(pieceMgr) && fresh(pieceMgr.picker) && fresh(disk) && fresh(disk.fileMap)
      ensures Core().mgr == InitManager(config.torrent) && Core().log == [] && Core().writes == []
      ensures initial == existing
    {
      this.config := config;
      pieceMgr := new PieceManager(config);
      disk := new DiskManager(config.torrent, existing);
      initial := existing;
      log, writes := [], [];
    }

    lemma CoreIsOk()
      requires Valid()
      ensures CoreOk(config, Core())
    {
    }

    /** Schedules one block and queues its request, if there is one to schedule. */
    method RequestBlock(conn: PeerConnection) returns (requested: bool)
      requires Valid() && conn.state.Connected?
      modifies conn`writeBuffer, conn`interest, conn`queued, pieceMgr`activePieces
      ensures Valid()
      ensures requested ==>
              exists k :: RequestOne(config, old(Local(Core(), conn.View())), k, Local(Core(), conn.View()))
      ensures !requested ==> Local(Core(), conn.View()) == old(Local(Core(), conn.View()))
                             && NothingToRequest(pieceMgr.View(), conn.peer.bitfield)
    {
      hide Torrent.WellFormed, Inv, RequestStep, NothingToRequest, BlockRequest, Queued, Disks.AfterWrites;
      ghost var a := Local(Core(), conn.View());
      var request, pick := pieceMgr.CreateNextRequest(conn.peer);
      if request.None? {
        NothingLeft(config, a, pieceMgr.View());
        return false;
      }
      RequestFrameable(config, a, pieceMgr.View(), pick.value);
      conn.QueueMessage(request.value);
      assert RequestOne(config, a, pick.value, Local(Core(), conn.View()));
      return true;
    }

    /** Asks a peer that is not choking us for up to five blocks. */
    method RequestNextBlocks(conn: PeerConnection)
      requires Valid() && conn.state.Connected?
      modifies conn`writeBuffer, conn`interest, conn`queued, pieceMgr`activePieces
      ensures Valid()
      ensures RequestNext(config, old(Local(Core(), conn.View())), Local(Core(), conn.View()))
    {
      hide Torrent.WellFormed, Inv, RequestOne, NothingToRequest, Disks.AfterWrites;
      ghost var a := Local(Core(), conn.View());
      if conn.peer.peerChoking {
        return;
      }
      var i := 0;
      while i < REQUESTS_PER_TURN
        invariant 0 <= i <= REQUESTS_PER_TURN
        invariant Valid() && conn.state.Connected?
        invariant conn.peer.View() == a.conn.peer
        invariant Requests(config, a, i, Local(Core(), conn.View()))
      {
        ghost var mid := Local(Core(), conn.View());
        var requested := RequestBlock(conn);
        if !requested {
          assert RequestedUpTo(config, a, i, mid);
          return;
        }
        i := i + 1;
      }
      assert RequestedUpTo(config, a, i, Local(Core(), conn.View()));
    }

    lemma NothingLeft(c: Config, a: Local, mgr: Manager)
      requires RequestStep(c.torrent, a.core.mgr, a.conn.peer.bitfield, mgr, None)
      ensures mgr == a.core.mgr && NothingToRequest(mgr, a.conn.peer.bitfield)
    {
    }

    lemma RequestFrameable(c: Config, a: Local, mgr: Manager, k: Pick)
      requires RequestStep(c.torrent, a.core.mgr, a.conn.peer.bitfield, mgr, Some(k))
      ensures c.torrent.WellFormed() && k.piece < |c.torrent.pieces| && k.block < BlockCount(Size(c.torrent, k.piece))
      ensures Frameable(BlockRequest(c.torrent, k))
    {
      BlockRequestFrameable(c.torrent, k);
    }

    /** A Piece message's block: to disk first, then to the piece manager. */
    method StorePiece(index: nat, begin: nat, data: seq<byte>)
      requires Valid()
      modifies this`log, this`writes, pieceMgr`activePieces, pieceMgr.picker, disk`store
      ensures Valid()
      ensures CoreOk(config, old(Core())) && Core() == StoreBlock(config, old(Core()), index, begin, data)
    {
      hide Torrent.WellFormed, Inv, ProcessOutcome, AfterProcess, Disks.Patch, Disks.WriteBlock;
      CoreIsOk();
      disk.WriteBlock(index, begin, data);
      var done, outcome := pieceMgr.ProcessBlock(index, begin, data);
      log := log + EventsOf(index, outcome);
      writes := writes + [Disks.Write(index * disk.pieceLength + begin, data)];
      assert writes[..|writes| - 1] == old(writes);
    }

    /** The peer has one more piece; the first time we tell it that we are interested. */
    method OnHave(conn: PeerConnection, pieceIndex: nat)
      modifies conn`writeBuffer, conn`interest, conn`queued, conn.peer`amInterested, conn.peer`bitfield
      ensures forall core :: Local(core, conn.View()) == AfterHave(Local(core, old(conn.View())), pieceIndex)
    {
      hide SetPiece, Queued;
      conn.peer.Announce(pieceIndex);
      if !conn.peer.amInterested {
        conn.peer.amInterested := true;
        conn.QueueMessage(INTERESTED_MESSAGE);
      }
    }

    /** The peer has these pieces and no others. */
    method OnBitfield(conn: PeerConnection, payload: seq<byte>)
      modifies conn`writeBuffer, conn`interest, conn`queued, conn.peer`bitfield
      ensures forall core :: Local(core, conn.View()) == AfterBitfield(Local(core, old(conn.View())), payload)
    {
      hide Queued;
      conn.peer.bitfield := payload;
      conn.QueueMessage(INTERESTED_MESSAGE);
    }

    method OnPeerMessage(conn: PeerConnection, m: PeerMessage)
      requires Valid() && conn.state.Connected?
      modifies conn`writeBuffer, conn`interest, conn`queued
      modifies conn.peer`amInterested, conn.peer`peerChoking, conn.peer`peerInterested, conn.peer`bitfield
      modifies this`log, this`writes, pieceMgr`activePieces, pieceMgr.picker, disk`store
      ensures Valid()
      ensures MessageStep(config, old(Local(Core(), conn.View())), m, Local(Core(), conn.View()))
    {
      hide Torrent.WellFormed, Inv, RequestNext, StoreBlock, AfterHave, AfterBitfield, Disks.AfterWrites;
      CoreIsOk();
      if m.id == CHOKE {
        conn.peer.peerChoking := true;
      } else if m.id == UNCHOKE {
        conn.peer.peerChoking := false;
        RequestNextBlocks(conn);
      } else if m.id == INTERESTED {
        conn.peer.peerInterested := true;
      } else if m.id == NOT_INTERESTED {
        conn.peer.peerInterested := false;
      } else if m.id == HAVE {
        if |m.payload| == 4 {
          OnHave(conn, ReadU32(m.payload));
        }
      } else if m.id == BITFIELD {
        OnBitfield(conn, m.payload);
      } else if m.id == PIECE {
        if |m.payload| <= 8 {
          return;
        }
        var index := ReadU32(m.payload);
        var begin := ReadU32(m.payload[4..]);
        var blockData := m.payload[8..];
        StorePiece(index, begin, blockData);
        RequestNextBlocks(conn);
      }
    }
  }
}
