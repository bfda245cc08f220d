/** Choosing the next piece to open. */
module PiecePicking {
  import opened Peers

  class PiecePicker {
    const totalPieces: nat
    var completedPieces: seq<bool>

    ghost predicate Valid()
      reads this
    {
      |completedPieces| == totalPieces
    }

    constructor (totalPieces: nat)
      ensures Valid() && this.totalPieces == totalPieces
      ensures completedPieces == seq(totalPieces, _ => false)
    {
      this.totalPieces := totalPieces;
      completedPieces := seq(totalPieces, _ => false);
    }

    method MarkCompleted(pieceIndex: nat)
      requires Valid()
      modifies this
      ensures Valid()
      ensures completedPieces ==
              if pieceIndex < totalPieces then old(completedPieces)[pieceIndex := true] else old(completedPieces)
    {
      if pieceIndex < totalPieces {
        completedPieces := completedPieces[pieceIndex := true];
      }
    }

    /** Piece `i` is neither completed nor to be skipped, and the peer has it. */
    predicate Eligible(peer: Peer, skip: set<nat>, i: nat)
      reads this, peer
    {
      i < |completedPieces| && !completedPieces[i] && i !in skip && peer.Has(i)
    }

    method PickNextPiece(peer: Peer, skip: set<nat>) returns (r: int)
      requires Valid()
      ensures -1 <= r < totalPieces
      ensures r == -1 ==> forall i: nat :: !Eligible(peer, skip, i)
      ensures r != -1 ==> Eligible(peer, skip, r) && forall i: nat :: i < r ==> !Eligible(peer, skip, i)
    {
      var i := 0;
      while i < totalPieces
        invariant 0 <= i <= totalPieces
        invariant forall k: nat :: k < i ==> !Eligible(peer, skip, k)
      {
        if completedPieces[i] || i in skip || !peer.Has(i) {
          i := i + 1;
          continue;
        }
        return i;
      }
      return -1;
    }
  }
}

/** The piece manager as an object whose methods carry out the steps of `Pieces`. */
module PieceManagement {
  import opened Bytes
  import opened Messages
  import opened Peers
  import opened PiecePicking
  import opened Pieces
  import opened Torrents
  import opened Wrappers

  class PieceManager {
    const config: Config
    const picker: PiecePicker
    var activePieces: map<nat, ActivePiece>

    ghost predicate Valid()
      reads this, picker
    {
      picker.Valid() && Inv(config.torrent, View())
    }

    ghost function View(): Manager
      reads this, picker
    {
      Manager(activePieces, picker.completedPieces)
    }

    constructor (config: Config)
      requires config.torrent.WellFormed()
      ensures Valid() && fresh(picker)
      ensures this.config == config
      ensures View() == InitManager(config.torrent)
    {
      this.config := config;
      picker := new PiecePicker(|config.torrent.pieces|);
      activePieces := map[];
      new;
      InitInv(config.torrent);
    }

    /** The block loop of a piece being opened. */
    static method BuildBlocks(pieceLength: nat) returns (count: nat, blocks: seq<Block>)
      requires pieceLength <= TWO_32 - BLOCK_SIZE
      ensures count == BlockCount(pieceLength)
      ensures blocks == FreshBlocks(pieceLength)
    {
      count := U32(pieceLength + BLOCK_SIZE - 1) / BLOCK_SIZE;
      BlockCountExactly(pieceLength);
      blocks := [];
      var i := 0;
      while i < count
        invariant 0 <= i <= count
        invariant blocks == FreshBlocks(pieceLength)[..i]
      {
        var offset := i * BLOCK_SIZE;
        var length := if pieceLength - offset < BLOCK_SIZE then pieceLength - offset else BLOCK_SIZE;
        blocks := blocks + [Block(i, offset, length, Missing, [])];
        i := i + 1;
      }
    }

    method InitActivePiece(pieceIndex: nat)
      requires Valid() && pieceIndex < |config.torrent.pieces|
      modifies this`activePieces
      ensures activePieces == old(activePieces)[pieceIndex := FreshPiece(config.torrent, pieceIndex)]
    {
      hide GoodPiece, FreshBlocks, BlockCount;
      var t := config.torrent;
      PieceSizeRange(t, pieceIndex);
      var totalSize := t.TotalSize();
      var pieceLength: nat := U32(t.pieceLength);
      var offsetInTorrent := pieceIndex * pieceLength;
      if offsetInTorrent + pieceLength > totalSize {
        pieceLength := U32(totalSize - offsetInTorrent);
      }
      assert pieceLength == Size(t, pieceIndex);
      var count, blocks := BuildBlocks(pieceLength);
      activePieces := activePieces[pieceIndex := ActivePiece(pieceIndex, count, 0, blocks)];
    }

    /** Requests block `k` of an active piece: its state is updated in place and its 12-byte
        Request message is built. */
    method RequestBlock(k: Pick) returns (m: PeerMessage)
      requires Valid() && k.piece in activePieces && MissingAt(activePieces[k.piece].blocks, k.block)
      modifies this`activePieces
      ensures k.piece < |config.torrent.pieces| && k.block < BlockCount(Size(config.torrent, k.piece))
      ensures View() == AfterPick(config.torrent, old(View()), k)
      ensures m == BlockRequest(config.torrent, k)
    {
      var a := activePieces[k.piece];
      var b := a.blocks[k.block];
      assert GoodBlock(config.torrent, k.piece, k.block, b);
      activePieces := activePieces[k.piece := WithBlock(a, k.block, b.(state := Requested))];
      m := PeerMessage(REQUEST, EncodeU32(k.piece) + EncodeU32(b.offset) + EncodeU32(b.length));
    }

    /** The least Missing block, or the block count. */
    static method ScanBlocks(blocks: seq<Block>) returns (b: nat)
      ensures b <= |blocks|
      ensures forall i: nat :: i < b ==> !MissingAt(blocks, i)
      ensures b < |blocks| ==> MissingAt(blocks, b)
    {
      b := 0;
      while b < |blocks| && blocks[b].state != Missing
        invariant 0 <= b <= |blocks|
        invariant forall i: nat :: i < b ==> !MissingAt(blocks, i)
      {
        b := b + 1;
      }
    }

    /** Phase 1: the first Missing block of some active piece that the peer has. The order in
        which the pieces are visited is not determined. */
    method FindMissing(peer: Peer) returns (r: Option<Pick>)
      requires Valid()
      ensures r.None? ==> forall p: nat :: !HasMissing(View(), peer.bitfield, p)
      ensures r.Some? ==>
                && r.value.piece in activePieces
                && MayPick(View(), peer.bitfield, r.value)
    {
      hide Inv, HasPiece;
      ghost var s := View();
      var todo := activePieces.Keys;
      while todo != {}
        invariant todo <= activePieces.Keys
        invariant forall p: nat :: p in s.active.Keys - todo ==> !HasMissing(s, peer.bitfield, p)
        decreases |todo|
      {
        var p :| p in todo;
        if peer.Has(p) {
          var b := ScanBlocks(activePieces[p].blocks);
          if b < |activePieces[p].blocks| {
            return Some(Pick(p, b));
          }
        }
        todo := todo - {p};
      }
      return None;
    }

    method CreateNextRequest(peer: Peer) returns (m: Option<PeerMessage>, ghost pick: Option<Pick>)
      requires Valid()
      modifies this`activePieces
      ensures Valid()
      ensures RequestStep(config.torrent, old(View()), peer.bitfield, View(), pick)
      ensures m == match pick case None => None case Some(k) => Some(BlockRequest(config.torrent, k))
    {
      hide Torrent.WellFormed, GoodPiece, Size, HasPiece, MayPick, Openable, HasMissing;
      ghost var t, s := config.torrent, View();
      var found := FindMissing(peer);
      if found.Some? {
        pick := found;
        PickInRange(t, s, peer.bitfield, found.value);
        PickedFromActive(t, s, peer.bitfield, found.value);
        var request := RequestBlock(found.value);
        RequestStepKeepsInv(t, s, peer.bitfield, View(), pick);
        return Some(request), pick;
      }

      if |activePieces| >= MAX_ACTIVE_PIECES {
        return None, None;
      }
      var inFlight := activePieces.Keys;
      var next := picker.PickNextPiece(peer, inFlight);
      EligibleIsOpenable(peer);
      if next == -1 {
        return None, None;
      }
      pick := Some(Pick(next, 0));
      PickedAnew(t, s, peer.bitfield, pick.value);
      PickInRange(t, s, peer.bitfield, pick.value);
      var request := OpenPiece(next);
      RequestStepKeepsInv(t, s, peer.bitfield, View(), pick);
      return Some(request), pick;
    }

    /** Phase 2: opens a piece and requests its first block. */
    method OpenPiece(p: nat) returns (m: PeerMessage)
      requires Valid() && p < |config.torrent.pieces| && p !in activePieces
      requires !picker.completedPieces[p] && |activePieces| < MAX_ACTIVE_PIECES
      modifies this`activePieces
      ensures BlockCount(Size(config.torrent, p)) > 0
      ensures View() == AfterPick(config.torrent, old(View()), Pick(p, 0))
      ensures m == BlockRequest(config.torrent, Pick(p, 0))
    {
      hide Torrent.WellFormed, GoodPiece, Size;
      OpenedInv(config.torrent, View(), p);
      FreshPieceGood(config.torrent, p);
      InitActivePiece(p);
      m := RequestBlock(Pick(p, 0));
    }

    lemma PickedFromActive(t: Torrent, s: Manager, bits: seq<byte>, k: Pick)
      requires k.piece in s.active && MayPick(s, bits, k)
      ensures MissingAt(s.active[k.piece].blocks, k.block)
    {
    }

    lemma PickedAnew(t: Torrent, s: Manager, bits: seq<byte>, k: Pick)
      requires k.block == 0 && |s.active| < MAX_ACTIVE_PIECES
      requires forall p: nat :: !HasMissing(s, bits, p)
      requires Openable(s, bits, k.piece) && forall p: nat :: p < k.piece ==> !Openable(s, bits, p)
      ensures MayPick(s, bits, k) && k.piece !in s.active
    {
    }

    /** What the picker looks for among pieces not in flight is what the scheduler may open. */
    lemma EligibleIsOpenable(peer: Peer)
      ensures forall p: nat :: Openable(View(), peer.bitfield, p) <==> picker.Eligible(peer, activePieces.Keys, p)
    {
    }

    /** The bytes of an active piece's blocks; nothing for a piece that is not active. */
    method GetCompletedPiece(pieceIndex: nat) returns (full: seq<byte>)
      ensures full == if pieceIndex in activePieces then Joined(activePieces[pieceIndex].blocks) else []
    {
      full := [];
      if pieceIndex in activePieces {
        var blocks := activePieces[pieceIndex].blocks;
        for i := 0 to |blocks|
          invariant full == Joined(blocks[..i])
        {
          assert blocks[..i + 1][..i] == blocks[..i];
          full := full + blocks[i].data;
        }
        assert blocks[..|blocks|] == blocks;
      }
    }

    method VerifyPieceHash(pieceIndex: nat) returns (ok: bool)
      requires pieceIndex in activePieces && pieceIndex < |config.torrent.pieces|
      ensures ok <==> config.sha1(Joined(activePieces[pieceIndex].blocks)) == config.torrent.pieces[pieceIndex]
    {
      var full := GetCompletedPiece(pieceIndex);
      var calculated := config.sha1(full);
      ok := calculated == config.torrent.pieces[pieceIndex];
    }

    /** The first block at an offset that is not Downloaded, or the block count. */
    static method FindOutstanding(blocks: seq<Block>, offset: nat) returns (b: nat)
      ensures b <= |blocks|
      ensures FindBlock(blocks, offset, 0) == if b < |blocks| then Some(b) else None
    {
      b := 0;
      while b < |blocks| && !(blocks[b].offset == offset && blocks[b].state != Downloaded)
        invariant 0 <= b <= |blocks|
        invariant forall i: nat :: i < b ==> blocks[i].offset != offset || blocks[i].state == Downloaded
      {
        b := b + 1;
      }
      assert b < |blocks| ==> Accepts(blocks, offset, b);
    }

    /** Sets every block of a piece back to Missing and drops its data. */
    static method ThrowAway(blocks: seq<Block>) returns (r: seq<Block>)
      ensures r == Cleared(blocks)
    {
      r := blocks;
      var i := 0;
      while i < |r|
        invariant 0 <= i <= |r| == |blocks|
        invariant r == Cleared(blocks)[..i] + blocks[i..]
      {
        r := r[i := r[i].(state := Missing, data := [])];
        i := i + 1;
      }
    }

    method ProcessBlock(pieceIndex: nat, blockOffset: nat, data: seq<byte>)
      returns (done: bool, ghost outcome: Outcome)
      requires Valid()
      modifies this`activePieces, picker
      ensures Valid()
      ensures outcome == ProcessOutcome(config, old(View()), pieceIndex, blockOffset, data)
      ensures View() == AfterProcess(config, old(View()), pieceIndex, blockOffset, data)
      ensures done <==> outcome.Completed?
    {
      hide Inv, Torrent.WellFormed, GoodPiece, Joined, CountDownloaded, Size, Cleared, FindBlock;
      ghost var s := View();
      ActiveInRange(config.torrent, s, pieceIndex);
      outcome := ProcessOutcome(config, s, pieceIndex, blockOffset, data);
      ProcessKeepsInv(config, s, pieceIndex, blockOffset, data);
      done := false;
      if pieceIndex !in activePieces {
        return;
      }
      var a := activePieces[pieceIndex];
      var b := FindOutstanding(a.blocks, blockOffset);
      if b == |a.blocks| {
        return;
      }
      a := WithBlock(a, b, a.blocks[b].(state := Downloaded, data := data));
      a := a.(blocksDownloaded := a.blocksDownloaded + 1);
      activePieces := activePieces[pieceIndex := a];
      assert a == WithData(s.active[pieceIndex], b, data);
      if a.blocksDownloaded != a.totalBlocks {
        return;
      }
      var verified := VerifyPieceHash(pieceIndex);
      if verified {
        picker.MarkCompleted(pieceIndex);
        activePieces := activePieces - {pieceIndex};
        assert activePieces == s.active - {pieceIndex};
        done := true;
      } else {
        var blocks := ThrowAway(a.blocks);
        activePieces := activePieces[pieceIndex := a.(blocksDownloaded := 0, blocks := blocks)];
        ClearedWithData(s.active[pieceIndex].blocks, b, data);
        assert activePieces == AfterProcess(config, s, pieceIndex, blockOffset, data).active;
      }
    }

    lemma ClearedWithData(blocks: seq<Block>, b: nat, data: seq<byte>)
      requires b < |blocks|
      ensures Cleared(blocks[b := blocks[b].(state := Downloaded, data := data)]) == Cleared(blocks)
    {
    }
  }
}
