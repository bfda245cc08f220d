/** The block and piece state machine, on values. */
module Pieces {
  import opened Bytes
  import opened Messages
  import opened Peers
  import opened Torrents
  import opened Wrappers

  const MAX_ACTIVE_PIECES: nat := 10

  /** The torrent being fetched and the hash function its piece digests were made with. */
  datatype Config = Config(torrent: Torrent, sha1: seq<byte> -> seq<byte>)

  datatype ActivePiece = ActivePiece(
    index: nat,
    totalBlocks: nat,
    blocksDownloaded: nat,
    blocks: seq<Block>)

  datatype Manager = Manager(active: map<nat, ActivePiece>, completed: seq<bool>)

  function InitManager(t: Torrent): Manager {
    Manager(map[], seq(|t.pieces|, _ => false))
  }

  function Size(t: Torrent, p: nat): (r: nat)
    requires t.WellFormed() && p < |t.pieces|
    ensures 0 < r <= t.pieceLength
  {
    PieceSizeRange(t, p);
    t.PieceSize(p)
  }

  function FreshPiece(t: Torrent, p: nat): ActivePiece
    requires t.WellFormed() && p < |t.pieces|
  {
    ActivePiece(p, BlockCount(Size(t, p)), 0, FreshBlocks(Size(t, p)))
  }

  function CountDownloaded(blocks: seq<Block>): nat {
    if blocks == [] then 0
    else CountDownloaded(blocks[..|blocks| - 1]) + (if blocks[|blocks| - 1].state == Downloaded then 1 else 0)
  }

  /** The bytes of all blocks, in order. */
  function Joined(blocks: seq<Block>): seq<byte> {
    if blocks == [] then [] else Joined(blocks[..|blocks| - 1]) + blocks[|blocks| - 1].data
  }

  // ---- the representation invariant ----

  ghost predicate GoodBlock(t: Torrent, p: nat, b: nat, x: Block)
    requires t.WellFormed() && p < |t.pieces| && b < BlockCount(Size(t, p))
  {
    && x.index == b
    && x.offset == b * BLOCK_SIZE
    && x.length == BlockLength(Size(t, p), b)
    && (x.state != Downloaded ==> x.data == [])
  }

  ghost predicate GoodPiece(t: Torrent, p: nat, a: ActivePiece)
    requires t.WellFormed() && p < |t.pieces|
  {
    && a.index == p
    && |a.blocks| == a.totalBlocks == BlockCount(Size(t, p))
    && (forall b: nat :: b < |a.blocks| ==> GoodBlock(t, p, b, a.blocks[b]))
    && a.blocksDownloaded == CountDownloaded(a.blocks) < a.totalBlocks
  }

  ghost predicate Inv(t: Torrent, s: Manager) {
    && t.WellFormed()
    && |s.completed| == |t.pieces|
    && |s.active| <= MAX_ACTIVE_PIECES
    && (forall p: nat :: p in s.active ==>
         p < |t.pieces| && !s.completed[p] && GoodPiece(t, p, s.active[p]))
  }

  lemma ActiveInRange(t: Torrent, s: Manager, p: nat)
    requires Inv(t, s)
    ensures t.WellFormed() && |s.completed| == |t.pieces|
    ensures p in s.active ==> p < |t.pieces| && !s.completed[p] && GoodPiece(t, p, s.active[p])
  {
  }

  lemma InitInv(t: Torrent)
    requires t.WellFormed()
    ensures Inv(t, InitManager(t))
  {
  }

  lemma {:induction false} CountNone(blocks: seq<Block>)
    requires forall i :: 0 <= i < |blocks| ==> blocks[i].state != Downloaded
    ensures CountDownloaded(blocks) == 0
  {
    if blocks != [] {
      CountNone(blocks[..|blocks| - 1]);
    }
  }

  lemma {:induction false} CountUpdate(blocks: seq<Block>, i: nat, x: Block)
    requires i < |blocks|
    ensures CountDownloaded(blocks[i := x]) ==
            CountDownloaded(blocks)
            - (if blocks[i].state == Downloaded then 1 else 0)
            + (if x.state == Downloaded then 1 else 0)
  {
    var last := |blocks| - 1;
    if i == last {
      assert blocks[i := x][..last] == blocks[..last];
    } else {
      assert blocks[i := x][..last] == blocks[..last][i := x];
      CountUpdate(blocks[..last], i, x);
    }
  }

  lemma {:induction false} CountBound(blocks: seq<Block>)
    ensures CountDownloaded(blocks) <= |blocks|
    ensures CountDownloaded(blocks) == |blocks| <==> forall i :: 0 <= i < |blocks| ==> blocks[i].state == Downloaded
  {
    if blocks != [] {
      var init := blocks[..|blocks| - 1];
      CountBound(init);
      assert forall i :: 0 <= i < |init| ==> init[i] == blocks[i];
    }
  }

  lemma FreshPieceGood(t: Torrent, p: nat)
    requires t.WellFormed() && p < |t.pieces|
    ensures GoodPiece(t, p, FreshPiece(t, p))
    ensures BlockCount(Size(t, p)) > 0
  {
    CountNone(FreshBlocks(Size(t, p)));
  }

  // ---- scheduling ----

  /** An active piece that the peer has still holds a Missing block. */
  ghost predicate HasMissing(s: Manager, bits: seq<byte>, p: nat) {
    p in s.active && HasPiece(bits, p) && exists b: nat :: MissingAt(s.active[p].blocks, b)
  }

  predicate MissingAt(blocks: seq<Block>, b: nat) {
    b < |blocks| && blocks[b].state == Missing
  }

  /** A piece the peer has that is neither completed nor active. */
  predicate Openable(s: Manager, bits: seq<byte>, p: nat) {
    p < |s.completed| && !s.completed[p] && p !in s.active && HasPiece(bits, p)
  }

  ghost predicate NothingToRequest(s: Manager, bits: seq<byte>) {
    && (forall p: nat :: !HasMissing(s, bits, p))
    && (|s.active| >= MAX_ACTIVE_PIECES || forall p: nat :: !Openable(s, bits, p))
  }

  datatype Pick = Pick(piece: nat, block: nat)

  /** The blocks that a scheduler free to visit active pieces in any order may choose: the first
      Missing block of an active piece the peer has; failing that, the first block of the least
      piece that can be opened. */
  ghost predicate MayPick(s: Manager, bits: seq<byte>, k: Pick) {
    if k.piece in s.active then
      && HasPiece(bits, k.piece)
      && MissingAt(s.active[k.piece].blocks, k.block)
      && forall b: nat :: b < k.block ==> !MissingAt(s.active[k.piece].blocks, b)
    else
      && k.block == 0
      && (forall p: nat :: !HasMissing(s, bits, p))
      && |s.active| < MAX_ACTIVE_PIECES
      && Openable(s, bits, k.piece)
      && forall p: nat :: p < k.piece ==> !Openable(s, bits, p)
  }

  function Opened(t: Torrent, s: Manager, p: nat): Manager
    requires t.WellFormed() && p < |t.pieces|
  {
    if p in s.active then s else s.(active := s.active[p := FreshPiece(t, p)])
  }

  function WithBlock(a: ActivePiece, b: nat, x: Block): ActivePiece
    requires b < |a.blocks|
  {
    a.(blocks := a.blocks[b := x])
  }

  /** The state after block `k` has been requested; its piece is opened first if need be. */
  ghost function AfterPick(t: Torrent, s: Manager, k: Pick): Manager
    requires Inv(t, s) && k.piece < |t.pieces| && k.block < BlockCount(Size(t, k.piece))
  {
    FreshPieceGood(t, k.piece);
    var o := Opened(t, s, k.piece);
    var a := o.active[k.piece];
    o.(active := o.active[k.piece := WithBlock(a, k.block, a.blocks[k.block].(state := Requested))])
  }

  /** The Request message for a block. */
  function BlockRequest(t: Torrent, k: Pick): PeerMessage
    requires t.WellFormed() && k.piece < |t.pieces| && k.block < BlockCount(Size(t, k.piece))
  {
    RequestMessage(k.piece, k.block * BLOCK_SIZE, BlockLength(Size(t, k.piece), k.block))
  }

  lemma BlockRequestInjective(t: Torrent, k: Pick, l: Pick)
    requires t.WellFormed()
    requires k.piece < |t.pieces| && k.block < BlockCount(Size(t, k.piece))
    requires l.piece < |t.pieces| && l.block < BlockCount(Size(t, l.piece))
    ensures BlockRequest(t, k) == BlockRequest(t, l) <==> k == l
  {
    RequestDecodes(k.piece, k.block * BLOCK_SIZE, BlockLength(Size(t, k.piece), k.block));
    RequestDecodes(l.piece, l.block * BLOCK_SIZE, BlockLength(Size(t, l.piece), l.block));
  }

  /** A request names its block: the message has the id of a Request and three big-endian words, the
      piece, an offset and a length, and the bytes of the torrent at that offset of the piece, that many,
      are exactly the block's. Only the last block of a piece is asked for with less than 16384 bytes. */
  lemma BlockRequestExactly(t: Torrent, k: Pick, g: int)
    requires t.WellFormed() && k.piece < |t.pieces| && k.block < BlockCount(Size(t, k.piece))
    ensures var m := BlockRequest(t, k);
            && m.id == 6 && |m.payload| == 12
            && Big(m.payload[..4]) == k.piece
            && var start := k.piece * t.pieceLength + Big(m.payload[4..8]);
               && (InBlock(t, k.piece, k.block, g) <==> start <= g < start + Big(m.payload[8..12]))
               && (k.block + 1 < BlockCount(Size(t, k.piece)) ==> Big(m.payload[8..12]) == 16384)
  {
    BlockWordsFit(t, k);
    hide Torrent.WellFormed, BlockCount, Big;
    RequestWords(k.piece, k.block * BLOCK_SIZE, BlockLength(Size(t, k.piece), k.block));
    hide RequestMessage;
  }

  lemma BlockWordsFit(t: Torrent, k: Pick)
    requires t.WellFormed() && k.piece < |t.pieces| && k.block < BlockCount(Size(t, k.piece))
    ensures k.piece < TWO_32 && k.block * BLOCK_SIZE < TWO_32 && BlockLength(Size(t, k.piece), k.block) < TWO_32
  {
  }

  /** When there is nothing to request: all blocks of the active pieces the peer has are asked for, and
      ten pieces are active or all other pieces it has are completed. */
  lemma NothingToRequestExactly(s: Manager, bits: seq<byte>)
    ensures NothingToRequest(s, bits) <==>
            && (forall p: nat, b: nat :: p in s.active && HasPiece(bits, p) && b < |s.active[p].blocks| ==>
                 s.active[p].blocks[b].state != Missing)
            && (|s.active| >= 10 || forall p: nat :: p < |s.completed| && HasPiece(bits, p) && p !in s.active ==>
                 s.completed[p])
  {
    hide HasPiece;
    if NothingToRequest(s, bits) {
      forall p: nat, b: nat | p in s.active && HasPiece(bits, p) && b < |s.active[p].blocks|
        ensures s.active[p].blocks[b].state != Missing
      {
        assert !HasMissing(s, bits, p);
        assert !MissingAt(s.active[p].blocks, b);
      }
      forall p: nat | |s.active| < 10 && p < |s.completed| && HasPiece(bits, p) && p !in s.active
        ensures s.completed[p]
      {
        assert !Openable(s, bits, p);
      }
    }
  }

  /** The first open block in the order of the scheduler: an active piece goes before a new one, a new
      one is the least there is, and within a piece the first Missing block is taken. */
  lemma PickIsFirst(t: Torrent, s: Manager, bits: seq<byte>, k: Pick, l: Pick)
    requires Inv(t, s) && MayPick(s, bits, k)
    requires HasPiece(bits, l.piece) && l.piece < |s.completed| && !s.completed[l.piece]
    requires l.piece in s.active ==>
               l.block < |s.active[l.piece].blocks| && s.active[l.piece].blocks[l.block].state == Missing
    ensures l.piece == k.piece ==> k.block <= l.block
    ensures l.piece in s.active ==> k.piece in s.active
    ensures l.piece !in s.active && k.piece !in s.active ==> k.piece <= l.piece
  {
    hide Torrent.WellFormed, GoodPiece, HasPiece;
    if l.piece in s.active {
      assert MissingAt(s.active[l.piece].blocks, l.block);
      assert HasMissing(s, bits, l.piece);
    } else {
      assert Openable(s, bits, l.piece);
    }
  }

  /** One call of the scheduler. */
  ghost predicate RequestStep(t: Torrent, s: Manager, bits: seq<byte>, s': Manager, r: Option<Pick>) {
    && Inv(t, s)
    && match r
       case None => s' == s && NothingToRequest(s, bits)
       case Some(k) =>
         && MayPick(s, bits, k)
         && k.piece < |t.pieces|
         && k.block < BlockCount(Size(t, k.piece))
         && s' == AfterPick(t, s, k)
  }

  lemma PickInRange(t: Torrent, s: Manager, bits: seq<byte>, k: Pick)
    requires Inv(t, s) && MayPick(s, bits, k)
    ensures k.piece < |t.pieces| && k.block < BlockCount(Size(t, k.piece))
    ensures HasPiece(bits, k.piece) && !s.completed[k.piece]
  {
    if k.piece in s.active {
    } else {
      FreshPieceGood(t, k.piece);
    }
  }

  /** The scheduler can always answer, and answers with nothing exactly when there is nothing
      it may request. */
  lemma PickExactly(t: Torrent, s: Manager, bits: seq<byte>)
    requires Inv(t, s)
    ensures NothingToRequest(s, bits) <==> !exists k :: MayPick(s, bits, k)
  {
    hide Torrent.WellFormed, GoodPiece, Size;
    if p: nat :| HasMissing(s, bits, p) {
      var b: nat :| MissingAt(s.active[p].blocks, b);
      var first := FirstMissing(s.active[p].blocks, b);
      assert MayPick(s, bits, Pick(p, first));
    } else if |s.active| < MAX_ACTIVE_PIECES {
      if p: nat :| Openable(s, bits, p) {
        var least := LeastOpenable(s, bits, p);
        assert MayPick(s, bits, Pick(least, 0));
      }
    }
    if k :| MayPick(s, bits, k) {
      if k.piece in s.active {
        assert HasMissing(s, bits, k.piece);
      }
    }
  }

  lemma FirstMissing(blocks: seq<Block>, b: nat) returns (first: nat)
    requires MissingAt(blocks, b)
    ensures MissingAt(blocks, first) && forall i: nat :: i < first ==> !MissingAt(blocks, i)
  {
    if i: nat :| i < b && MissingAt(blocks, i) {
      first := FirstMissing(blocks, i);
    } else {
      first := b;
    }
  }

  lemma LeastOpenable(s: Manager, bits: seq<byte>, p: nat) returns (least: nat)
    requires Openable(s, bits, p)
    ensures Openable(s, bits, least) && forall i: nat :: i < least ==> !Openable(s, bits, i)
  {
    if i: nat :| i < p && Openable(s, bits, i) {
      least := LeastOpenable(s, bits, i);
    } else {
      least := p;
    }
  }

  lemma RequestedPieceGood(t: Torrent, p: nat, a: ActivePiece, b: nat)
    requires t.WellFormed() && p < |t.pieces| && GoodPiece(t, p, a) && MissingAt(a.blocks, b)
    ensures GoodPiece(t, p, WithBlock(a, b, a.blocks[b].(state := Requested)))
  {
    var x := a.blocks[b].(state := Requested);
    var blocks := a.blocks[b := x];
    CountUpdate(a.blocks, b, x);
    assert GoodBlock(t, p, b, a.blocks[b]);
    forall i: nat | i < |a.blocks|
      ensures GoodBlock(t, p, i, blocks[i])
    {
      assert GoodBlock(t, p, i, a.blocks[i]);
    }
  }

  /** The piece a block is picked from, as the scheduler finds or opens it: the block is Missing. */
  lemma PickedPiece(t: Torrent, s: Manager, bits: seq<byte>, k: Pick) returns (a: ActivePiece)
    requires Inv(t, s) && MayPick(s, bits, k)
    ensures k.piece < |t.pieces| && a == Opened(t, s, k.piece).active[k.piece]
    ensures GoodPiece(t, k.piece, a) && MissingAt(a.blocks, k.block)
  {
    PickInRange(t, s, bits, k);
    FreshPieceGood(t, k.piece);
    a := Opened(t, s, k.piece).active[k.piece];
  }

  /** A request moves one block from Missing to Requested and changes nothing else, apart from
      the piece it may open. */
  lemma RequestStepEffect(t: Torrent, s: Manager, bits: seq<byte>, s': Manager, k: Pick)
    requires RequestStep(t, s, bits, s', Some(k))
    ensures s'.completed == s.completed
    ensures s'.active.Keys == s.active.Keys + {k.piece}
    ensures forall p :: p in s.active && p != k.piece ==> s'.active[p] == s.active[p]
    ensures var a, a' := Opened(t, s, k.piece).active[k.piece], s'.active[k.piece];
            && MissingAt(a.blocks, k.block)
            && a' == WithBlock(a, k.block, a.blocks[k.block].(state := Requested))
  {
    hide Torrent.WellFormed, GoodPiece;
    var a := PickedPiece(t, s, bits, k);
  }

  lemma WithPieceInv(t: Torrent, s: Manager, p: nat, a: ActivePiece)
    requires Inv(t, s) && p in s.active && p < |t.pieces| && GoodPiece(t, p, a)
    ensures Inv(t, s.(active := s.active[p := a]))
  {
    hide GoodPiece, Torrent.WellFormed;
    var m := s.active[p := a];
    assert m.Keys == s.active.Keys;
    assert |m.Keys| == |m| && |s.active.Keys| == |s.active|;
  }

  lemma OpenedInv(t: Torrent, s: Manager, p: nat)
    requires Inv(t, s) && p < |t.pieces| && !s.completed[p]
    requires p in s.active || |s.active| < MAX_ACTIVE_PIECES
    ensures Inv(t, Opened(t, s, p))
  {
    hide GoodPiece, Torrent.WellFormed;
    FreshPieceGood(t, p);
    var m := s.active[p := FreshPiece(t, p)];
    assert m.Keys == s.active.Keys + {p};
    assert |m.Keys| == |m| && |s.active.Keys| == |s.active|;
  }

  lemma RequestStepKeepsInv(t: Torrent, s: Manager, bits: seq<byte>, s': Manager, r: Option<Pick>)
    requires RequestStep(t, s, bits, s', r)
    ensures Inv(t, s')
  {
    if r.Some? {
      hide Torrent.WellFormed, GoodPiece, Size, Inv;
      var k := r.value;
      var a := PickedPiece(t, s, bits, k);
      PickInRange(t, s, bits, k);
      PickHasRoom(t, s, bits, k);
      OpenedInv(t, s, k.piece);
      RequestedPieceGood(t, k.piece, a, k.block);
      WithPieceInv(t, Opened(t, s, k.piece), k.piece, WithBlock(a, k.block, a.blocks[k.block].(state := Requested)));
    }
  }

  lemma PickHasRoom(t: Torrent, s: Manager, bits: seq<byte>, k: Pick)
    requires Inv(t, s) && MayPick(s, bits, k)
    ensures k.piece in s.active || |s.active| < MAX_ACTIVE_PIECES
  {
  }

  // ---- accepting blocks ----

  /** The first block at `offset` that is not Downloaded yet. */
  predicate Accepts(blocks: seq<Block>, offset: nat, b: nat) {
    && b < |blocks|
    && blocks[b].offset == offset && blocks[b].state != Downloaded
    && forall i: nat :: i < b ==> blocks[i].offset != offset || blocks[i].state == Downloaded
  }

  function FindBlock(blocks: seq<Block>, offset: nat, from: nat): (r: Option<nat>)
    requires from <= |blocks|
    requires forall i: nat :: i < from ==> blocks[i].offset != offset || blocks[i].state == Downloaded
    ensures r.Some? ==> Accepts(blocks, offset, r.value)
    ensures r.None? ==> forall b: nat :: !Accepts(blocks, offset, b)
    decreases |blocks| - from
  {
    if from == |blocks| then None
    else if blocks[from].offset == offset && blocks[from].state != Downloaded then Some(from)
    else FindBlock(blocks, offset, from + 1)
  }

  /** What becomes of a block handed to the manager. */
  datatype Outcome =
    | Ignored
    | Stored(block: nat)
    | Failed(block: nat)
    | Completed(block: nat, content: seq<byte>)

  function WithData(a: ActivePiece, b: nat, data: seq<byte>): ActivePiece
    requires b < |a.blocks|
  {
    WithBlock(a, b, a.blocks[b].(state := Downloaded, data := data)).(blocksDownloaded := a.blocksDownloaded + 1)
  }

  function ProcessOutcome(c: Config, s: Manager, p: nat, offset: nat, data: seq<byte>): (r: Outcome)
    requires p in s.active ==> p < |c.torrent.pieces|
  {
    if p !in s.active then Ignored
    else
      var a := s.active[p];
      match FindBlock(a.blocks, offset, 0)
      case None => Ignored
      case Some(b) =>
        var a' := WithData(a, b, data);
        if a'.blocksDownloaded != a'.totalBlocks then Stored(b)
        else if c.sha1(Joined(a'.blocks)) == c.torrent.pieces[p] then Completed(b, Joined(a'.blocks))
        else Failed(b)
  }

  function Cleared(blocks: seq<Block>): (r: seq<Block>)
    ensures |r| == |blocks|
  {
    seq(|blocks|, i requires 0 <= i < |blocks| => blocks[i].(state := Missing, data := []))
  }

  function AfterProcess(c: Config, s: Manager, p: nat, offset: nat, data: seq<byte>): Manager
    requires p in s.active ==> p < |c.torrent.pieces|
    requires |s.completed| == |c.torrent.pieces|
  {
    match ProcessOutcome(c, s, p, offset, data)
    case Ignored => s
    case Stored(b) => s.(active := s.active[p := WithData(s.active[p], b, data)])
    case Failed(b) =>
      s.(active := s.active[p := s.active[p].(blocksDownloaded := 0, blocks := Cleared(s.active[p].blocks))])
    case Completed(_, _) => Manager(s.active - {p}, s.completed[p := true])
  }

  lemma StoredPieceGood(t: Torrent, p: nat, a: ActivePiece, b: nat, data: seq<byte>)
    requires t.WellFormed() && p < |t.pieces| && GoodPiece(t, p, a)
    requires b < |a.blocks| && a.blocks[b].state != Downloaded
    requires a.blocksDownloaded + 1 != a.totalBlocks
    ensures GoodPiece(t, p, WithData(a, b, data))
  {
    var x := a.blocks[b].(state := Downloaded, data := data);
    var blocks := a.blocks[b := x];
    CountUpdate(a.blocks, b, x);
    assert GoodBlock(t, p, b, a.blocks[b]);
    forall i: nat | i < |a.blocks|
      ensures GoodBlock(t, p, i, blocks[i])
    {
      assert GoodBlock(t, p, i, a.blocks[i]);
    }
  }

  lemma ClearedPieceGood(t: Torrent, p: nat, a: ActivePiece)
    requires t.WellFormed() && p < |t.pieces| && GoodPiece(t, p, a)
    ensures GoodPiece(t, p, a.(blocksDownloaded := 0, blocks := Cleared(a.blocks)))
  {
    CountNone(Cleared(a.blocks));
    forall i: nat | i < |a.blocks|
      ensures GoodBlock(t, p, i, Cleared(a.blocks)[i])
    {
      assert GoodBlock(t, p, i, a.blocks[i]);
    }
  }

  lemma WithoutPieceInv(t: Torrent, s: Manager, p: nat)
    requires Inv(t, s) && p in s.active && p < |s.completed|
    ensures Inv(t, Manager(s.active - {p}, s.completed[p := true]))
  {
    hide GoodPiece, Torrent.WellFormed;
    var m := s.active - {p};
    assert m.Keys == s.active.Keys - {p};
    assert |m.Keys| == |m| && |s.active.Keys| == |s.active|;
  }

  /** The manager's invariant survives any block, whatever piece, offset or bytes it names. */
  lemma ProcessKeepsInv(c: Config, s: Manager, p: nat, offset: nat, data: seq<byte>)
    requires Inv(c.torrent, s)
    ensures Inv(c.torrent, AfterProcess(c, s, p, offset, data))
  {
    hide Torrent.WellFormed, GoodPiece, Joined, CountDownloaded;
    match ProcessOutcome(c, s, p, offset, data)
    case Ignored =>
    case Stored(b) =>
      StoredPieceGood(c.torrent, p, s.active[p], b, data);
      WithPieceInv(c.torrent, s, p, WithData(s.active[p], b, data));
    case Failed(b) =>
      var a := s.active[p];
      ClearedPieceGood(c.torrent, p, a);
      WithPieceInv(c.torrent, s, p, a.(blocksDownloaded := 0, blocks := Cleared(a.blocks)));
    case Completed(_, _) =>
      WithoutPieceInv(c.torrent, s, p);
  }

  /** Downloading block `b` completes the count exactly when every other block is Downloaded. */
  lemma LastBlockExactly(blocks: seq<Block>, b: nat)
    requires b < |blocks| && blocks[b].state != Downloaded
    ensures CountDownloaded(blocks) + 1 == |blocks| <==>
            forall i: nat :: i < |blocks| && i != b ==> blocks[i].state == Downloaded
  {
    var x := blocks[b].(state := Downloaded);
    var after := blocks[b := x];
    CountUpdate(blocks, b, x);
    CountBound(after);
    assert forall i :: 0 <= i < |after| && i != b ==> after[i] == blocks[i];
    if forall i: nat :: i < |blocks| && i != b ==> blocks[i].state == Downloaded {
      assert forall i :: 0 <= i < |after| ==> after[i].state == Downloaded;
    }
  }

  predicate OthersDownloaded(blocks: seq<Block>, b: nat) {
    forall i: nat :: i < |blocks| && i != b ==> blocks[i].state == Downloaded
  }

  /** In a good state a piece is hashed, and so completed or thrown away, exactly when its last
      outstanding block arrives. */
  lemma FinishesExactly(c: Config, s: Manager, p: nat, offset: nat, data: seq<byte>)
    requires Inv(c.torrent, s)
    ensures var r := ProcessOutcome(c, s, p, offset, data);
            (r.Completed? || r.Failed?) <==>
            p in s.active
            && exists b: nat :: Accepts(s.active[p].blocks, offset, b) && OthersDownloaded(s.active[p].blocks, b)
  {
    hide Torrent.WellFormed, Joined, CountDownloaded;
    if p in s.active {
      var blocks := s.active[p].blocks;
      var found := FindBlock(blocks, offset, 0);
      forall b: nat | Accepts(blocks, offset, b)
        ensures found == Some(b)
      {
      }
      if found.Some? {
        LastBlockExactly(blocks, found.value);
      }
    }
  }
}
