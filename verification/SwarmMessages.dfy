/** What each message does, in the numbers of BEP 3, and what a peer's flags mean in every run. */
module SwarmMessages {
  import opened Bytes
  import opened Connections
  import opened Cores
  import opened Disks
  import opened Messages
  import opened Peers
  import opened Pieces
  import opened Streams
  import opened Swarm
  import opened Torrents
  import opened Wrappers
  import Handshakes

  // ---- a Piece message ----

  /** The fields of a block: the piece in the first word, the offset in the second, then the data. */
  lemma PieceFieldsExactly(m: PeerMessage)
    ensures CarriesBlock(m) <==> m.id == 7 && |m.payload| > 8
    ensures CarriesBlock(m) ==>
              && PieceIndex(m) == Big(m.payload[..4])
              && PieceBegin(m) == Big(m.payload[4..8])
              && PieceData(m) == m.payload[8..]
  {
    hide Big, ReadU32;
    if CarriesBlock(m) {
      WordIsBig(m.payload, 0);
      WordIsBig(m.payload[4..], 0);
      assert m.payload[4..][..4] == m.payload[4..8];
    }
  }

  lemma PieceMessageFields(index: nat, begin: nat, data: seq<byte>)
    requires index < TWO_32 && begin < TWO_32 && data != []
    ensures var m := PieceMessage(index, begin, data);
            CarriesBlock(m) && PieceIndex(m) == index && PieceBegin(m) == begin && PieceData(m) == data
  {
    hide Big, ReadU32, EncodeU32;
    var m := PieceMessage(index, begin, data);
    assert m.payload == EncodeU32(index) + (EncodeU32(begin) + data);
    assert m.payload[4..] == EncodeU32(begin) + data;
    ReadEncodedU32(index, EncodeU32(begin) + data);
    ReadEncodedU32(begin, data);
  }

  /** A block is written at its offset in its piece and handed to the manager under the same numbers;
      then more blocks are asked for. */
  lemma PieceMessageExactly(c: Config, a: Local, index: nat, begin: nat, data: seq<byte>, b: Local)
    requires index < TWO_32 && begin < TWO_32 && data != []
    ensures MessageStep(c, a, PieceMessage(index, begin, data), b) <==>
            CoreOk(c, a.core) && RequestNext(c, a.(core := StoreBlock(c, a.core, index, begin, data)), b)
  {
    hide RequestNext, StoreBlock, CoreOk, PieceIndex, PieceBegin, PieceData;
    PieceMessageFields(index, begin, data);
  }

  /** A message that carries a block stores it, and nothing else touches the disk or the history. */
  lemma MessageCore(c: Config, a: Local, m: PeerMessage, b: Local)
    requires MessageStep(c, a, m, b)
    ensures CoreOk(c, a.core)
    ensures m.id == 7 && |m.payload| > 8 ==>
              b.core == StoreBlock(c, a.core, Big(m.payload[..4]), Big(m.payload[4..8]),
                m.payload[8..]).(mgr := b.core.mgr)
    ensures m.id != 7 || |m.payload| <= 8 ==> b.core == a.core.(mgr := b.core.mgr)
    ensures m.id != 1 && (m.id != 7 || |m.payload| <= 8) ==> b.core == a.core
  {
    hide RequestNext, CoreOk, Big, PieceIndex, PieceBegin, PieceData, StoreBlock;
    PieceFieldsExactly(m);
    if CarriesBlock(m) {
      TurnCore(c, a.(core := StoreBlock(c, a.core, PieceIndex(m), PieceBegin(m), PieceData(m))), b);
    } else if m.id == UNCHOKE {
      TurnCore(c, WithPeer(a, a.conn.peer.(peerChoking := false)), b);
    }
  }

  /** Storing a block: the image is patched at the block's place, whatever the manager makes of it. */
  lemma StoreBlockExactly(c: Config, core: Core, p: nat, begin: nat, data: seq<byte>)
    requires CoreOk(c, core)
    ensures c.torrent.pieceLength > 0
    ensures var after := StoreBlock(c, core, p, begin, data);
            && after.image == Patch(core.image, p * c.torrent.pieceLength + begin, data)
            && after.writes == core.writes + [Write(p * c.torrent.pieceLength + begin, data)]
            && after.mgr == AfterProcess(c, core.mgr, p, begin, data)
  {
    hide Inv, Torrent.WellFormed, AfterProcess, ProcessOutcome, Patch;
    ActiveInRange(c.torrent, core.mgr, p);
    PieceLengthPositive(c.torrent);
  }

  lemma {:induction false} RequestsCore(c: Config, a: Local, n: nat, b: Local)
    requires Requests(c, a, n, b)
    ensures b.core == a.core.(mgr := b.core.mgr)
    decreases n
  {
    hide RequestStep, BlockRequest, Frameable, Queued;
    if n > 0 {
      var mid, k :| Requests(c, a, n - 1, mid) && RequestOne(c, mid, k, b);
      RequestsCore(c, a, n - 1, mid);
    }
  }

  lemma TurnCore(c: Config, a: Local, b: Local)
    requires RequestNext(c, a, b)
    ensures b.core == a.core.(mgr := b.core.mgr)
  {
    hide Requests, NothingToRequest;
    if !a.conn.peer.peerChoking {
      var n :| RequestedUpTo(c, a, n, b);
      RequestsCore(c, a, n, b);
    }
  }

  // ---- requests ----

  /** `y` has `n` requests more on its queue than `x`. */
  predicate AskedFor(x: Conn, y: Conn, n: nat) {
    && |y.queued| == |x.queued| + n
    && y.queued[..|x.queued|] == x.queued
    && (forall i :: |x.queued| <= i < |y.queued| ==> y.queued[i].id == 6)
    && y.reader == x.reader && y.peer == x.peer
  }

  lemma {:induction false} RequestsAsk(c: Config, a: Local, n: nat, b: Local)
    requires Requests(c, a, n, b) && a.conn.IsConnected()
    ensures AskedFor(a.conn, b.conn, n)
    decreases n
  {
    hide RequestStep, BlockRequest, Frameable;
    if n > 0 {
      var mid, k :| Requests(c, a, n - 1, mid) && RequestOne(c, mid, k, b);
      RequestsAsk(c, a, n - 1, mid);
      RequestId(c, mid, k, b);
    }
  }

  lemma RequestId(c: Config, a: Local, k: Pick, b: Local)
    requires RequestOne(c, a, k, b)
    ensures c.torrent.WellFormed() && k.piece < |c.torrent.pieces| && k.block < BlockCount(Size(c.torrent, k.piece))
    ensures BlockRequest(c.torrent, k).id == 6
  {
    hide MayPick, Queued, GoodPiece;
    BlockRequestExactly(c.torrent, k, 0);
  }

  /** One turn of asking: a peer that chokes us is asked for nothing; another for five blocks, or for
      fewer when nothing more may be requested. */
  ghost predicate OneTurn(c: Config, a: Local, b: Local) {
    if a.conn.peer.peerChoking then b == a
    else exists n: nat :: n <= 5 && AskedFor(a.conn, b.conn, n)
                          && (n < 5 ==> NothingToRequest(b.core.mgr, a.conn.peer.bitfield))
  }

  lemma TurnExactly(c: Config, a: Local, b: Local)
    requires RequestNext(c, a, b) && a.conn.IsConnected()
    ensures OneTurn(c, a, b)
  {
    hide Requests, NothingToRequest, AskedFor;
    if !a.conn.peer.peerChoking {
      var n :| RequestedUpTo(c, a, n, b);
      RequestsAsk(c, a, n, b);
      SamePeer(a.conn, b.conn, n);
    }
  }

  lemma SamePeer(x: Conn, y: Conn, n: nat)
    requires AskedFor(x, y, n)
    ensures y.peer == x.peer && y.reader == x.reader
  {
  }

  /** What a message puts on the send queue. */
  lemma MessageQueues(c: Config, a: Local, m: PeerMessage, b: Local)
    requires MessageStep(c, a, m, b) && a.conn.IsConnected()
    ensures m.id == 1 ==> OneTurn(c, WithPeer(a, a.conn.peer.(peerChoking := false)), b)
    ensures m.id == 7 && |m.payload| > 8 ==> exists stored :: OneTurn(c, a.(core := stored), b)
    ensures (m.id == 4 && |m.payload| == 4 && !a.conn.peer.amInterested) || m.id == 5 ==>
              b.conn.queued == a.conn.queued + [PeerMessage(2, [])]
    ensures m.id == 4 && (|m.payload| != 4 || a.conn.peer.amInterested) ==> b.conn.queued == a.conn.queued
    ensures m.id in {0, 2, 3, 6} || m.id > 7 || (m.id == 7 && |m.payload| <= 8) ==> b.conn.queued == a.conn.queued
  {
    hide RequestNext, CoreOk, StoreBlock, PieceIndex, PieceBegin, PieceData, SetPiece, Serialize, OneTurn;
    if m.id == UNCHOKE {
      TurnExactly(c, WithPeer(a, a.conn.peer.(peerChoking := false)), b);
    } else if CarriesBlock(m) {
      var stored := StoreBlock(c, a.core, PieceIndex(m), PieceBegin(m), PieceData(m));
      TurnExactly(c, a.(core := stored), b);
      assert OneTurn(c, a.(core := stored), b);
    }
  }

  // ---- flags ----

  /** A message says the one thing, and none after it says the other. */
  predicate SaidLast(ms: seq<PeerMessage>, yes: byte, no: byte) {
    exists t: nat :: t < |ms| && SaidAt(ms, t, yes, no)
  }

  predicate SaidAt(ms: seq<PeerMessage>, t: nat, yes: byte, no: byte)
    requires t < |ms|
  {
    ms[t].id == yes && forall u :: t < u < |ms| ==> ms[u].id != no
  }

  predicate HasHave(ms: seq<PeerMessage>) {
    exists t: nat :: t < |ms| && ms[t].id == 4 && |ms[t].payload| == 4
  }

  predicate HasUnchoke(ms: seq<PeerMessage>) {
    exists t: nat :: t < |ms| && ms[t].id == 1
  }

  lemma OneMoreSaid(ms: seq<PeerMessage>, m: PeerMessage, yes: byte, no: byte)
    requires yes != no
    ensures SaidLast(ms + [m], yes, no) <==> m.id == yes || (m.id != no && SaidLast(ms, yes, no))
  {
    var more := ms + [m];
    if m.id == yes {
      assert SaidAt(more, |ms|, yes, no);
    }
    if t: nat :| t < |ms| && SaidAt(ms, t, yes, no) {
      assert m.id != no ==> SaidAt(more, t, yes, no);
    }
    if t: nat :| t < |more| && SaidAt(more, t, yes, no) {
      if t < |ms| {
        assert more[|ms|] == m;
        assert SaidAt(ms, t, yes, no) by {
          assert forall u :: t < u < |ms| ==> more[u] == ms[u];
        }
      }
    }
  }

  lemma OneMoreHeard(ms: seq<PeerMessage>, m: PeerMessage)
    ensures HasHave(ms + [m]) <==> HasHave(ms) || (m.id == 4 && |m.payload| == 4)
    ensures HasUnchoke(ms + [m]) <==> HasUnchoke(ms) || m.id == 1
  {
    var more := ms + [m];
    assert more[|ms|] == m;
    assert forall t :: 0 <= t < |ms| ==> more[t] == ms[t];
  }

  /** The flags of a peer and what it has said. A peer chokes us until it says otherwise; we count as
      interested once it has announced a piece; and nothing is asked of it before it has unchoked us. */
  ghost predicate Flags(x: Conn) {
    var said := x.reader.delivered;
    && (x.peer.peerChoking <==> !SaidLast(said, 1, 0))
    && (x.peer.peerInterested <==> SaidLast(said, 2, 3))
    && (x.peer.amInterested <==> HasHave(said))
    && ((exists i: nat :: i < |x.queued| && x.queued[i].id == 6) ==> HasUnchoke(said))
  }

  lemma TurnKeepsPeer(c: Config, a: Local, b: Local)
    requires OneTurn(c, a, b)
    ensures b.conn.peer == a.conn.peer && b.conn.reader == a.conn.reader
    ensures a.conn.peer.peerChoking ==> b.conn.queued == a.conn.queued
  {
    hide NothingToRequest, AskedFor;
    if !a.conn.peer.peerChoking {
      var n: nat :| n <= 5 && AskedFor(a.conn, b.conn, n);
      SamePeer(a.conn, b.conn, n);
    }
  }

  /** What a message does to the flags. */
  lemma MessageFlags(c: Config, a: Local, m: PeerMessage, b: Local)
    requires MessageStep(c, a, m, b) && a.conn.IsConnected()
    ensures b.conn.peer.peerChoking <==> m.id == 0 || (m.id != 1 && a.conn.peer.peerChoking)
    ensures b.conn.peer.peerInterested <==> m.id == 2 || (m.id != 3 && a.conn.peer.peerInterested)
    ensures b.conn.peer.amInterested <==> (m.id == 4 && |m.payload| == 4) || a.conn.peer.amInterested
  {
    hide RequestNext, CoreOk, StoreBlock, PieceIndex, PieceBegin, PieceData, SetPiece, Serialize, OneTurn;
    if m.id == UNCHOKE {
      var unchoked := WithPeer(a, a.conn.peer.(peerChoking := false));
      TurnExactly(c, unchoked, b);
      TurnKeepsPeer(c, unchoked, b);
    } else if CarriesBlock(m) {
      var stored := a.(core := StoreBlock(c, a.core, PieceIndex(m), PieceBegin(m), PieceData(m)));
      TurnExactly(c, stored, b);
      TurnKeepsPeer(c, stored, b);
    }
  }

  /** Only a peer that has unchoked us is asked for anything. */
  lemma MessageAsks(c: Config, a: Local, m: PeerMessage, b: Local)
    requires MessageStep(c, a, m, b) && a.conn.IsConnected() && Flags(a.conn)
    requires exists i: nat :: i < |b.conn.queued| && b.conn.queued[i].id == 6
    ensures m.id == 1 || HasUnchoke(a.conn.reader.delivered)
  {
    hide MessageStep, NothingToRequest, AskedFor, SaidAt;
    MessageQueues(c, a, m, b);
    if m.id == 7 && |m.payload| > 8 {
      var stored :| OneTurn(c, a.(core := stored), b);
      TurnKeepsPeer(c, a.(core := stored), b);
      UnchokedSaid(a.conn.reader.delivered);
    } else if m.id != 1 {
      var i: nat :| i < |b.conn.queued| && b.conn.queued[i].id == 6;
      assert i < |a.conn.queued| && a.conn.queued[i].id == 6;
    }
  }

  lemma UnchokedSaid(ms: seq<PeerMessage>)
    ensures SaidLast(ms, 1, 0) ==> HasUnchoke(ms)
  {
  }

  lemma DeliverFlags(c: Config, a: Local, b: Local)
    requires DeliverOne(c, a, b) && Flags(a.conn)
    ensures Flags(b.conn)
  {
    hide MessageStep, ParseMessage, SaidLast, HasHave, HasUnchoke;
    var reader := a.conn.reader;
    var parsed := ParseMessage(reader.buffer);
    var mid :| && (if parsed.KeepAlive? then mid == a else MessageStep(c, a, parsed.message, mid))
               && b == WithReader(mid, TakeOne(reader));
    if parsed.Frame? {
      var m := parsed.message;
      MessageFlags(c, a, m, mid);
      OneMoreSaid(reader.delivered, m, 1, 0);
      OneMoreSaid(reader.delivered, m, 2, 3);
      OneMoreHeard(reader.delivered, m);
      if exists i: nat :: i < |mid.conn.queued| && mid.conn.queued[i].id == 6 {
        MessageAsks(c, a, m, mid);
      }
    }
  }

  lemma StepFlags(c: Config, infoHash: seq<byte>, a: Local, act: Action, b: Local)
    requires LocalStep(c, infoHash, a, act, b) && Flags(a.conn)
    ensures Flags(b.conn)
  {
    hide DeliverOne, SaidLast, HasHave, HasUnchoke, Handshakes.Deserialize, Handshakes.Serialize;
    if act.Deliver? {
      DeliverFlags(c, a, b);
    }
  }

  lemma FreshFlags()
    ensures Flags(FRESH_CONN)
  {
  }

  /** What a peer's flags mean, in every state of every run. */
  lemma {:induction false} RunFlags(c: Config, infoHash: seq<byte>, run: seq<System>, acts: seq<Action>, i: nat, k: nat)
    requires IsRun(c, infoHash, run, acts) && i < |run| && k < |run[i].conns|
    ensures Flags(run[i].conns[k])
    decreases i
  {
    hide LocalStep, Flags;
    if i == 0 {
      FreshFlags();
    } else {
      var s, act := run[i - 1], acts[i - 1];
      assert Next(c, infoHash, s, act, run[i]);
      var b :| LocalStep(c, infoHash, s.At(act.k), act, b) && run[i] == s.With(act.k, b);
      RunFlags(c, infoHash, run, acts, i - 1, k);
      if act.k == k {
        StepFlags(c, infoHash, s.At(k), act, b);
      }
    }
  }
}
