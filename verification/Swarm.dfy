/** The engine on values: any number of connections driving one piece manager and one disk. */
module Swarm {
  import opened Bytes
  import opened Connections
  import opened Cores
  import opened Messages
  import opened Peers
  import opened Pieces
  import opened Streams
  import opened Torrents
  import opened Wrappers
  import Handshakes

  const REQUESTS_PER_TURN: nat := 5

  /** The shared state together with the connection being served. */
  datatype Local = Local(core: Core, conn: Conn)

  // ---- requests ----

  lemma BlockRequestFrameable(t: Torrent, k: Pick)
    requires t.WellFormed() && k.piece < |t.pieces| && k.block < BlockCount(Size(t, k.piece))
    ensures Frameable(BlockRequest(t, k))
  {
  }

  /** One block is scheduled and its Request is queued. */
  ghost predicate RequestOne(c: Config, a: Local, k: Pick, b: Local) {
    && RequestStep(c.torrent, a.core.mgr, a.conn.peer.bitfield, b.core.mgr, Some(k))
    && Frameable(BlockRequest(c.torrent, k))
    && b.core == a.core.(mgr := b.core.mgr)
    && b.conn == Queued(a.conn, BlockRequest(c.torrent, k))
  }

  ghost predicate Requests(c: Config, a: Local, n: nat, b: Local)
    decreases n
  {
    if n == 0 then a == b
    else exists mid, k :: Requests(c, a, n - 1, mid) && RequestOne(c, mid, k, b)
  }

  /** Asking a peer for blocks: at most five, fewer only when nothing more may be requested. */
  ghost predicate RequestNext(c: Config, a: Local, b: Local) {
    if a.conn.peer.peerChoking then a == b
    else exists n :: RequestedUpTo(c, a, n, b)
  }

  ghost predicate RequestedUpTo(c: Config, a: Local, n: nat, b: Local) {
    && n <= REQUESTS_PER_TURN
    && Requests(c, a, n, b)
    && (n < REQUESTS_PER_TURN ==> NothingToRequest(b.core.mgr, b.conn.peer.bitfield))
  }

  // ---- messages ----

  /** The fields of a Piece message long enough to carry data. */
  predicate CarriesBlock(m: PeerMessage) {
    m.id == PIECE && |m.payload| > 8
  }

  function PieceIndex(m: PeerMessage): nat
    requires CarriesBlock(m)
  {
    ReadU32(m.payload)
  }

  function PieceBegin(m: PeerMessage): nat
    requires CarriesBlock(m)
  {
    ReadU32(m.payload[4..])
  }

  function PieceData(m: PeerMessage): seq<byte>
    requires CarriesBlock(m)
  {
    m.payload[8..]
  }

  const INTERESTED_MESSAGE := PeerMessage(INTERESTED, [])

  function WithPeer(a: Local, peer: PeerView): Local {
    a.(conn := a.conn.(peer := peer))
  }

  function AfterHave(a: Local, piece: nat): Local {
    var peer := a.conn.peer.(bitfield := SetPiece(a.conn.peer.bitfield, piece));
    if peer.amInterested then WithPeer(a, peer)
    else
      var b := WithPeer(a, peer.(amInterested := true));
      b.(conn := Queued(b.conn, INTERESTED_MESSAGE))
  }

  function AfterBitfield(a: Local, payload: seq<byte>): Local {
    var b := WithPeer(a, a.conn.peer.(bitfield := payload));
    b.(conn := Queued(b.conn, INTERESTED_MESSAGE))
  }

  /** The session's reaction to one message. */
  ghost predicate MessageStep(c: Config, a: Local, m: PeerMessage, b: Local) {
    && CoreOk(c, a.core)
    && if m.id == CHOKE then b == WithPeer(a, a.conn.peer.(peerChoking := true))
       else if m.id == UNCHOKE then RequestNext(c, WithPeer(a, a.conn.peer.(peerChoking := false)), b)
       else if m.id == INTERESTED then b == WithPeer(a, a.conn.peer.(peerInterested := true))
       else if m.id == NOT_INTERESTED then b == WithPeer(a, a.conn.peer.(peerInterested := false))
       else if m.id == HAVE && |m.payload| == 4 then b == AfterHave(a, ReadU32(m.payload))
       else if m.id == BITFIELD then b == AfterBitfield(a, m.payload)
       else if CarriesBlock(m) then
         RequestNext(c, a.(core := StoreBlock(c, a.core, PieceIndex(m), PieceBegin(m), PieceData(m))), b)
       else b == a
  }

  // ---- reading ----

  function WithReader(a: Local, r: Reader): Local {
    a.(conn := a.conn.(reader := r))
  }

  /** One message is taken off the buffer; unless it is a keep-alive it is handled first. */
  ghost predicate DeliverOne(c: Config, a: Local, b: Local) {
    && a.conn.IsConnected()
    && Ready(a.conn.reader.buffer)
    && exists mid ::
         && (if ParseMessage(a.conn.reader.buffer).KeepAlive? then mid == a
             else MessageStep(c, a, ParseMessage(a.conn.reader.buffer).message, mid))
         && b == WithReader(mid, TakeOne(a.conn.reader))
  }

  ghost predicate DeliverSome(c: Config, a: Local, n: nat, b: Local)
    decreases n
  {
    if n == 0 then a == b
    else exists mid :: DeliverSome(c, a, n - 1, mid) && DeliverOne(c, mid, b)
  }

  /** Reading a chunk: the handshake if it is due, then every message that is complete. */
  ghost predicate ReadStep(c: Config, infoHash: seq<byte>, a: Local, chunk: seq<byte>, b: Local) {
    var arrived := WithReader(a, a.conn.reader.(buffer := a.conn.reader.buffer + chunk));
    var met := AfterGreeting(infoHash, arrived);
    if met.conn.IsConnected() then !Ready(b.conn.reader.buffer) && exists n :: DeliverSome(c, met, n, b)
    else b == met
  }

  function AfterGreeting(infoHash: seq<byte>, a: Local): Local {
    if !a.conn.reader.state.HandshakeSent? then a
    else
      var r := Greet(infoHash, a.conn.reader);
      if r.state.Disconnected? then a.(conn := Closed(a.conn)) else WithReader(a, r)
  }

  // ---- the whole system ----

  datatype System = System(core: Core, conns: seq<Conn>)
  {
    function At(k: nat): Local
      requires k < |conns|
    {
      Local(core, conns[k])
    }

    function With(k: nat, b: Local): System
      requires k < |conns|
    {
      System(b.core, conns[k := b.conn])
    }
  }

  /** What can happen to connection `k`. */
  datatype Action =
    | Start(k: nat, hello: Handshakes.Handshake)
    | Arrive(k: nat, chunk: seq<byte>)
    | Shake(k: nat)
    | Deliver(k: nat)
    | Flush(k: nat, n: nat)
    | Close(k: nat)

  ghost predicate LocalStep(c: Config, infoHash: seq<byte>, a: Local, act: Action, b: Local) {
    match act
    case Start(_, h) =>
      a.conn == FRESH_CONN && h.Valid() && b == a.(conn := Started(a.conn, Handshakes.Serialize(h)))
    case Arrive(_, chunk) =>
      && !a.conn.reader.state.Disconnected?
      && b == WithReader(a, a.conn.reader.(buffer := a.conn.reader.buffer + chunk))
    case Shake(_) =>
      && a.conn.reader.state.HandshakeSent?
      && var r := Greet(infoHash, a.conn.reader);
         if r.state.Disconnected? then b == a.(conn := Closed(a.conn)) else b == WithReader(a, r)
    case Deliver(_) => DeliverOne(c, a, b)
    case Flush(_, n) =>
      && !a.conn.reader.state.Disconnected?
      && n <= |a.conn.writeBuffer|
      && b == a.(conn := Flushed(a.conn, n))
    case Close(_) => b == a.(conn := Closed(a.conn))
  }

  ghost predicate Next(c: Config, infoHash: seq<byte>, s: System, act: Action, s': System) {
    && act.k < |s.conns|
    && exists b :: LocalStep(c, infoHash, s.At(act.k), act, b) && s' == s.With(act.k, b)
  }

  /** The start: nothing active or completed, any bytes on disk, any number of fresh connections. */
  ghost predicate Init(c: Config, s: System) {
    && c.torrent.WellFormed()
    && s.core.mgr == InitManager(c.torrent)
    && |s.core.image| == c.torrent.TotalSize()
    && s.core.log == [] && s.core.writes == []
    && forall k :: 0 <= k < |s.conns| ==> s.conns[k] == FRESH_CONN
  }

  ghost predicate IsRun(c: Config, infoHash: seq<byte>, run: seq<System>, acts: seq<Action>) {
    && |run| == |acts| + 1
    && Init(c, run[0])
    && forall i :: 0 <= i < |acts| ==> Next(c, infoHash, run[i], acts[i], run[i + 1])
  }

  // ---- reads as actions ----

  /** A stretch of actions from one state of the system to another. */
  ghost predicate Acts(c: Config, infoHash: seq<byte>, states: seq<System>, acts: seq<Action>) {
    && |states| == |acts| + 1
    && forall i :: 0 <= i < |acts| ==> Next(c, infoHash, states[i], acts[i], states[i + 1])
  }

  lemma OneMoreAct(c: Config, infoHash: seq<byte>, states: seq<System>, acts: seq<Action>, act: Action, k: nat,
                   b: Local)
    requires Acts(c, infoHash, states, acts)
    requires act.k == k < |states[|acts|].conns|
    requires LocalStep(c, infoHash, states[|acts|].At(k), act, b)
    ensures Acts(c, infoHash, states + [states[|acts|].With(k, b)], acts + [act])
  {
    hide LocalStep;
    assert Next(c, infoHash, states[|acts|], act, states[|acts|].With(k, b));
  }

  lemma WithSame(s: System, k: nat)
    requires k < |s.conns|
    ensures s.With(k, s.At(k)) == s
  {
    assert s.conns[k := s.conns[k]] == s.conns;
  }

  lemma WithAgain(s: System, k: nat, a: Local, b: Local)
    requires k < |s.conns|
    ensures s.With(k, a).At(k) == a && s.With(k, a).With(k, b) == s.With(k, b)
  {
    assert s.conns[k := a.conn][k := b.conn] == s.conns[k := b.conn];
  }

  lemma {:induction false} DeliveriesAreActions(c: Config, infoHash: seq<byte>, s: System, k: nat, n: nat, b: Local)
    returns (states: seq<System>, acts: seq<Action>)
    requires k < |s.conns| && DeliverSome(c, s.At(k), n, b)
    ensures Acts(c, infoHash, states, acts) && states[0] == s && states[|acts|] == s.With(k, b)
    decreases n
  {
    hide DeliverOne;
    if n == 0 {
      states, acts := [s], [];
      WithSame(s, k);
    } else {
      var mid :| DeliverSome(c, s.At(k), n - 1, mid) && DeliverOne(c, mid, b);
      states, acts := DeliveriesAreActions(c, infoHash, s, k, n - 1, mid);
      WithAgain(s, k, mid, b);
      OneMoreAct(c, infoHash, states, acts, Deliver(k), k, b);
      states, acts := states + [states[|acts|].With(k, b)], acts + [Deliver(k)];
    }
  }

  lemma JoinActs(c: Config, infoHash: seq<byte>, x: seq<System>, xs: seq<Action>, y: seq<System>, ys: seq<Action>)
    requires Acts(c, infoHash, x, xs) && Acts(c, infoHash, y, ys) && x[|xs|] == y[0]
    ensures Acts(c, infoHash, x + y[1..], xs + ys) && (x + y[1..])[|xs + ys|] == y[|ys|]
  {
    hide Next;
    var states, acts := x + y[1..], xs + ys;
    forall i | 0 <= i < |acts|
      ensures Next(c, infoHash, states[i], acts[i], states[i + 1])
    {
      if i >= |xs| {
        assert states[i] == y[i - |xs|] && states[i + 1] == y[i - |xs| + 1];
      }
    }
  }

  /** One read of a socket is a stretch of actions of the system, so runs cover whole reads. */
  lemma ReadIsActions(c: Config, infoHash: seq<byte>, s: System, k: nat, chunk: seq<byte>, b: Local)
    returns (states: seq<System>, acts: seq<Action>)
    requires k < |s.conns| && !s.conns[k].reader.state.Disconnected?
    requires ReadStep(c, infoHash, s.At(k), chunk, b)
    ensures Acts(c, infoHash, states, acts) && states[0] == s && states[|acts|] == s.With(k, b)
  {
    hide Greet, DeliverSome, Ready, Next;
    var a := s.At(k);
    var arrived := WithReader(a, a.conn.reader.(buffer := a.conn.reader.buffer + chunk));
    var met := AfterGreeting(infoHash, arrived);
    states, acts := [s], [];
    OneMoreAct(c, infoHash, states, acts, Arrive(k, chunk), k, arrived);
    states, acts := states + [s.With(k, arrived)], acts + [Arrive(k, chunk)];
    WithAgain(s, k, arrived, met);
    if arrived.conn.reader.state.HandshakeSent? {
      OneMoreAct(c, infoHash, states, acts, Shake(k), k, met);
      states, acts := states + [s.With(k, met)], acts + [Shake(k)];
    }
    assert states[|acts|] == s.With(k, met);
    if met.conn.IsConnected() {
      var n :| DeliverSome(c, met, n, b);
      WithAgain(s, k, met, b);
      var later, more := DeliveriesAreActions(c, infoHash, s.With(k, met), k, n, b);
      JoinActs(c, infoHash, states, acts, later, more);
      states, acts := states + later[1..], acts + more;
    }
  }
}
