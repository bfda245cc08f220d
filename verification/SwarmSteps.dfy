/** Every action of the engine as a sequence of small effects on the shared state. */
module SwarmSteps {
  import opened Agreement
  import opened Bytes
  import opened Connections
  import opened Cores
  import opened Messages
  import opened Peers
  import opened Pieces
  import opened Streams
  import opened Swarm
  import Handshakes

  /** What one small step does: nothing to the shared state, a request, or a stored block. */
  datatype Effect = Quiet | Asked(k: Pick) | Took(p: nat, begin: nat, data: seq<byte>)

  function QueuedCount(x: Conn, m: PeerMessage): nat {
    multiset(x.queued)[m]
  }

  /** The connection changes without queuing a request, and its send queue stays sound. */
  ghost predicate QuietConn(x: Conn, y: Conn) {
    && (OutboundInv(x) ==> OutboundInv(y))
    && forall m: PeerMessage :: m.id == REQUEST ==> QueuedCount(y, m) == QueuedCount(x, m)
  }

  ghost predicate HasEffect(c: Config, a: Local, e: Effect, b: Local) {
    match e
    case Quiet => b.core == a.core && QuietConn(a.conn, b.conn)
    case Asked(k) => RequestOne(c, a, k, b) && a.conn.IsConnected()
    case Took(p, begin, data) =>
      CoreOk(c, a.core) && b.core == StoreBlock(c, a.core, p, begin, data) && b.conn == a.conn
  }

  /** One small step of connection `k`; a strict one stores only honest blocks. */
  ghost predicate Micro(c: Config, s: System, s': System, strict: bool) {
    exists k: nat, e, b :: k < |s.conns| && MicroAt(c, s, k, e, b, strict) && s' == s.With(k, b)
  }

  ghost predicate MicroAt(c: Config, s: System, k: nat, e: Effect, b: Local, strict: bool)
    requires k < |s.conns|
  {
    && HasEffect(c, s.At(k), e, b)
    && (strict && e.Took? ==> CoreOk(c, s.core) && Honest(c, s.core, e.p, e.begin, e.data))
  }

  ghost predicate Path(c: Config, path: seq<System>, strict: bool) {
    path != [] && forall i: nat :: i + 1 < |path| ==> MicroFrom(c, path, i, strict)
  }

  ghost predicate MicroFrom(c: Config, path: seq<System>, i: nat, strict: bool)
    requires i + 1 < |path|
  {
    Micro(c, path[i], path[i + 1], strict)
  }

  function Last(path: seq<System>): System
    requires path != []
  {
    path[|path| - 1]
  }

  lemma Extend(c: Config, path: seq<System>, s: System, strict: bool)
    requires Path(c, path, strict) && Micro(c, Last(path), s, strict)
    ensures Path(c, path + [s], strict)
  {
    hide Micro;
    var longer := path + [s];
    forall i: nat | i + 1 < |longer|
      ensures MicroFrom(c, longer, i, strict)
    {
      if i + 1 < |path| {
        assert MicroFrom(c, path, i, strict);
      }
    }
  }

  lemma {:induction false} JoinPaths(c: Config, x: seq<System>, y: seq<System>, strict: bool)
    returns (path: seq<System>)
    requires Path(c, x, strict) && Path(c, y, strict) && Last(x) == y[0]
    ensures Path(c, path, strict) && path[0] == x[0] && Last(path) == Last(y)
  {
    hide Micro;
    if |y| == 1 {
      path := x;
    } else {
      var init := y[..|y| - 1];
      forall i: nat | i + 1 < |init|
        ensures MicroFrom(c, init, i, strict)
      {
        assert MicroFrom(c, y, i, strict);
      }
      path := JoinPaths(c, x, init, strict);
      assert MicroFrom(c, y, |y| - 2, strict);
      Extend(c, path, Last(y), strict);
      path := path + [Last(y)];
    }
  }

  /** A single effect is a path. */
  lemma OneStep(c: Config, s: System, k: nat, e: Effect, b: Local, strict: bool) returns (path: seq<System>)
    requires k < |s.conns| && MicroAt(c, s, k, e, b, strict)
    ensures Path(c, path, strict) && path[0] == s && Last(path) == s.With(k, b)
  {
    path := [s, s.With(k, b)];
    assert Micro(c, s, s.With(k, b), strict);
    assert MicroFrom(c, path, 0, strict);
  }

  lemma {:induction false} RequestsPath(c: Config, s: System, k: nat, n: nat, b: Local, strict: bool)
    returns (path: seq<System>)
    requires k < |s.conns| && s.conns[k].IsConnected()
    requires Requests(c, s.At(k), n, b)
    ensures Path(c, path, strict) && path[0] == s && Last(path) == s.With(k, b)
    ensures b.conn.reader == s.conns[k].reader
    decreases n
  {
    hide RequestStep, BlockRequest;
    if n == 0 {
      WithSame(s, k);
      path := [s];
    } else {
      var mid, pick :| Requests(c, s.At(k), n - 1, mid) && RequestOne(c, mid, pick, b);
      path := RequestsPath(c, s, k, n - 1, mid, strict);
      WithAgain(s, k, mid, b);
      assert MicroAt(c, s.With(k, mid), k, Asked(pick), b, strict);
      assert Micro(c, s.With(k, mid), s.With(k, b), strict);
      Extend(c, path, s.With(k, b), strict);
      path := path + [s.With(k, b)];
    }
  }

  lemma RequestNextPath(c: Config, s: System, k: nat, b: Local, strict: bool) returns (path: seq<System>)
    requires k < |s.conns| && s.conns[k].IsConnected()
    requires RequestNext(c, s.At(k), b)
    ensures Path(c, path, strict) && path[0] == s && Last(path) == s.With(k, b)
    ensures b.conn.reader == s.conns[k].reader
  {
    if s.conns[k].peer.peerChoking {
      WithSame(s, k);
      path := [s];
    } else {
      var n :| RequestedUpTo(c, s.At(k), n, b);
      path := RequestsPath(c, s, k, n, b, strict);
    }
  }

  /** A message followed by requests: one effect, then the requests. */
  lemma ThenRequests(c: Config, s: System, k: nat, e: Effect, a: Local, b: Local, strict: bool)
    returns (path: seq<System>)
    requires k < |s.conns| && s.conns[k].IsConnected()
    requires MicroAt(c, s, k, e, a, strict) && a.conn.reader == s.conns[k].reader
    requires RequestNext(c, a, b)
    ensures Path(c, path, strict) && path[0] == s && Last(path) == s.With(k, b)
    ensures b.conn.reader == s.conns[k].reader
  {
    hide RequestNext, MicroAt;
    var first := OneStep(c, s, k, e, a, strict);
    WithAgain(s, k, a, b);
    var rest := RequestNextPath(c, s.With(k, a), k, b, strict);
    path := JoinPaths(c, first, rest, strict);
  }

  /** The block a message carries, if any, is honest. */
  ghost predicate HonestMessage(c: Config, core: Core, m: PeerMessage) {
    CarriesBlock(m) ==> CoreOk(c, core) && Honest(c, core, PieceIndex(m), PieceBegin(m), PieceData(m))
  }

  lemma QuietPeer(x: Conn, peer: PeerView)
    ensures QuietConn(x, x.(peer := peer))
  {
  }

  lemma QuietInterested(x: Conn)
    ensures QuietConn(x, Queued(x, INTERESTED_MESSAGE))
  {
    if OutboundInv(x) {
      QueuedKeeps(x, INTERESTED_MESSAGE);
    }
  }

  lemma MessagePath(c: Config, s: System, k: nat, m: PeerMessage, b: Local, strict: bool) returns (path: seq<System>)
    requires k < |s.conns| && s.conns[k].IsConnected()
    requires MessageStep(c, s.At(k), m, b)
    requires strict ==> HonestMessage(c, s.core, m)
    ensures Path(c, path, strict) && path[0] == s && Last(path) == s.With(k, b)
    ensures b.conn.reader == s.conns[k].reader
  {
    var a := s.At(k);
    hide OutboundInv, Path, RequestNext, CoreOk, Honest, SetPiece;
    if m.id == UNCHOKE {
      var a1 := WithPeer(a, a.conn.peer.(peerChoking := false));
      QuietPeer(a.conn, a1.conn.peer);
      path := ThenRequests(c, s, k, Quiet, a1, b, strict);
    } else if CarriesBlock(m) {
      path := BlockPath(c, s, k, m, b, strict);
    } else {
      QuietMessage(c, a, m, b);
      path := OneStep(c, s, k, Quiet, b, strict);
    }
  }

  lemma BlockPath(c: Config, s: System, k: nat, m: PeerMessage, b: Local, strict: bool) returns (path: seq<System>)
    requires k < |s.conns| && s.conns[k].IsConnected() && CarriesBlock(m)
    requires MessageStep(c, s.At(k), m, b)
    requires strict ==> HonestMessage(c, s.core, m)
    ensures Path(c, path, strict) && path[0] == s && Last(path) == s.With(k, b)
    ensures b.conn.reader == s.conns[k].reader
  {
    hide Path, RequestNext, CoreOk, Honest, StoreBlock, PieceIndex, PieceBegin, PieceData;
    var a := s.At(k);
    var p, begin, data := PieceIndex(m), PieceBegin(m), PieceData(m);
    var a1 := a.(core := StoreBlock(c, a.core, p, begin, data));
    path := ThenRequests(c, s, k, Took(p, begin, data), a1, b, strict);
  }

  lemma QuietMessage(c: Config, a: Local, m: PeerMessage, b: Local)
    requires MessageStep(c, a, m, b) && m.id != UNCHOKE && !CarriesBlock(m)
    ensures b.core == a.core && QuietConn(a.conn, b.conn) && b.conn.reader == a.conn.reader
  {
    hide OutboundInv, CoreOk, SetPiece, Serialize;
    var x := a.conn.(peer := b.conn.peer);
    QuietPeer(a.conn, b.conn.peer);
    QuietInterested(x);
  }

  lemma TakeOneState(r: Reader)
    requires Ready(r.buffer)
    ensures TakeOne(r).state == r.state
  {
  }

  lemma QuietReader(x: Conn, r: Reader)
    requires r.state == x.reader.state || (x.reader.state.HandshakeSent? && r.state.Connected?)
    ensures QuietConn(x, x.(reader := r))
  {
  }

  /** Delivering one message, with whatever the handler does. */
  lemma DeliverPath(c: Config, s: System, k: nat, b: Local, strict: bool) returns (path: seq<System>)
    requires k < |s.conns| && DeliverOne(c, s.At(k), b)
    requires strict ==> ParseMessage(s.conns[k].reader.buffer).Frame? ==>
               HonestMessage(c, s.core, ParseMessage(s.conns[k].reader.buffer).message)
    ensures Path(c, path, strict) && path[0] == s && Last(path) == s.With(k, b)
  {
    hide OutboundInv, MessageStep, HonestMessage, QuietConn, HasEffect;
    var reader := s.conns[k].reader;
    var parsed := ParseMessage(reader.buffer);
    var mid :| && (if parsed.KeepAlive? then mid == s.At(k) else MessageStep(c, s.At(k), parsed.message, mid))
               && b == WithReader(mid, TakeOne(reader));
    if parsed.KeepAlive? {
      WithSame(s, k);
      path := [s];
    } else {
      path := MessagePath(c, s, k, parsed.message, mid, strict);
    }
    TakeOneState(reader);
    WithAgain(s, k, mid, b);
    QuietReader(mid.conn, TakeOne(reader));
    QuietIsEffect(c, mid, b);
    var last := OneStep(c, s.With(k, mid), k, Quiet, b, strict);
    path := JoinPaths(c, path, last, strict);
  }

  lemma QuietIsEffect(c: Config, a: Local, b: Local)
    requires b.core == a.core && QuietConn(a.conn, b.conn)
    ensures HasEffect(c, a, Quiet, b)
  {
  }

  /** The block that a Deliver action would hand to the session is honest. */
  ghost predicate HonestAction(c: Config, s: System, act: Action) {
    act.Deliver? && act.k < |s.conns| && ParseMessage(s.conns[act.k].reader.buffer).Frame? ==>
      HonestMessage(c, s.core, ParseMessage(s.conns[act.k].reader.buffer).message)
  }

  lemma QuietAction(c: Config, infoHash: seq<byte>, a: Local, act: Action, b: Local)
    requires LocalStep(c, infoHash, a, act, b) && !act.Deliver?
    ensures b.core == a.core && QuietConn(a.conn, b.conn)
  {
    match act
    case Start(_, h) => StartedKeeps(a.conn, Handshakes.Serialize(h));
    case Arrive(_, _) => QuietReader(a.conn, b.conn.reader);
    case Shake(_) =>
      if Greet(infoHash, a.conn.reader).state.Disconnected? {
        QuietClosed(a.conn);
      } else {
        QuietReader(a.conn, b.conn.reader);
      }
    case Flush(_, n) =>
      if OutboundInv(a.conn) {
        FlushedKeeps(a.conn, n);
      }
    case Close(_) => QuietClosed(a.conn);
  }

  lemma QuietClosed(x: Conn)
    ensures QuietConn(x, Closed(x))
  {
    if OutboundInv(x) {
      ClosedKeeps(x);
    }
  }

  /** Every action of the engine is a sequence of small effects. */
  lemma ActionPath(c: Config, infoHash: seq<byte>, s: System, act: Action, s': System, strict: bool)
    returns (path: seq<System>)
    requires Next(c, infoHash, s, act, s')
    requires strict ==> HonestAction(c, s, act)
    ensures Path(c, path, strict) && path[0] == s && Last(path) == s'
  {
    var b :| LocalStep(c, infoHash, s.At(act.k), act, b) && s' == s.With(act.k, b);
    if act.Deliver? {
      path := DeliverPath(c, s, act.k, b, strict);
    } else {
      hide LocalStep;
      QuietAction(c, infoHash, s.At(act.k), act, b);
      path := OneStep(c, s, act.k, Quiet, b, strict);
    }
  }
}
