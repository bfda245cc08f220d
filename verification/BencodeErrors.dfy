/** One input for each way in which decoding fails. */
module BencodeErrors {
  import opened Bencode
  import opened Bytes
  import opened Metainfo
  import opened Wrappers

  lemma ScalarErrors()
    ensures Decode([], 0) == Some(Fail(UnexpectedEnd))
    ensures Decode([105, 53], 0) == Some(Fail(UnterminatedInteger))
    ensures Decode([105, 101], 0) == Some(Fail(EmptyInteger))
    ensures Decode([105, 45, 101], 0) == Some(Fail(InvalidInteger))
    ensures Decode([53], 0) == Some(Fail(NoColon))
    ensures Decode([120], 0) == Some(Fail(UnknownType))
  {
    assert [105, 53][1] == 53 && Find([105, 53], 2, CHAR_E) == 2;
    assert [105, 101][1..1] == [];
    assert Find([105, 45, 101], 2, CHAR_E) == 2;
    assert [105, 45, 101][1..2] == [45] && [45][1..] == [];
    assert Find([53], 1, COLON) == 1;
  }

  /** A string that says it has two bytes and has one. */
  lemma OutOfBounds()
    ensures Decode([50, 58, 97], 0) == Some(Fail(StringOutOfBounds))
  {
    var data: seq<byte> := [50, 58, 97];
    assert Find(data, 1, COLON) == 1;
    var text := data[0..1];
    assert text == [50] && DigitCount(text, 1) == 1;
    assert text[..1] == [50] && [50][..0] == [];
    assert Number([50]) == 2;
  }

  lemma ContainerErrors()
    ensures Decode([108], 0) == Some(Fail(UnterminatedList))
    ensures Decode([100], 0) == Some(Fail(UnterminatedDict))
    ensures Decode([100, 108, 101, 101], 0) == Some(Fail(KeyNotString))
  {
    var data: seq<byte> := [100, 108, 101, 101];
    var n := EnoughTurns(data);
    assert RunItems(data, 2, [], n - 1) == Some(Got([], 3));
    assert RunAt(data, 1, n - 1) == Some(Got(List([]), 3));
    assert RunEntries(data, 1, map[], n) == Some(Fail(KeyNotString));
  }

  /** A torrent whose root is a list, and one without the text "4:info". */
  lemma TorrentErrors()
    ensures InfoSlice([]) == Err(DecodeFailed(UnexpectedEnd))
    ensures InfoSlice([108, 101]) == Err(RootNotDict)
    ensures InfoSlice([100, 101]) == Err(MissingInfo)
  {
    assert RunItems([108, 101], 1, [], EnoughTurns([108, 101])) == Some(Got([], 2));
    assert RunEntries([100, 101], 1, map[], EnoughTurns([100, 101])) == Some(Got(map[], 2));
  }
}
