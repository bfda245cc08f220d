/** The slice of a torrent file that its info hash is made from, and the piece hashes. */
module Metainfo {
  import opened Bencode
  import opened BencodeEncoding
  import opened BencodeLaws
  import opened BencodeWraps
  import opened Bytes
  import opened Wrappers

  /** "info" and "4:info" */
  const INFO: seq<byte> := [105, 110, 102, 111]
  const INFO_KEY: seq<byte> := [52, 58, 105, 110, 102, 111]

  /** `Endless` is no error of the source: its decoder does not come back. */
  datatype MetainfoError = DecodeFailed(e: Error) | RootNotDict | MissingInfo | PiecesLength | Endless

  predicate KeyAt(raw: seq<byte>, i: nat) {
    Stands(raw, i, INFO_KEY)
  }

  /** The first place, from `from` on, where the key stands. */
  function FindKey(raw: seq<byte>, from: nat): (r: Option<nat>)
    ensures r.Some? ==> r.value >= from && KeyAt(raw, r.value)
    ensures r.Some? ==> forall i: nat :: from <= i < r.value ==> !KeyAt(raw, i)
    ensures r.None? ==> forall i: nat :: from <= i ==> !KeyAt(raw, i)
    decreases |raw| - from
  {
    if from + |INFO_KEY| > |raw| then None
    else if KeyAt(raw, from) then Some(from)
    else FindKey(raw, from + 1)
  }

  /** `substr(start, end - start)`: the difference wraps when the cursor has gone back. */
  function Slice(raw: seq<byte>, start: nat, end: nat): seq<byte>
    requires start <= |raw| && end <= |raw|
  {
    if end < start then raw[start..] else raw[start..end]
  }

  /** The bytes that are hashed: from just past the first "4:info" to where decoding there stops. */
  function InfoSlice(raw: seq<byte>): Result<seq<byte>, MetainfoError> {
    match Decode(raw, 0)
    case None => Err(Endless)
    case Some(Fail(e)) => Err(DecodeFailed(e))
    case Some(Got(root, _)) =>
      if !root.Dict? then Err(RootNotDict)
      else
        match FindKey(raw, 0)
        case None => Err(MissingInfo)
        case Some(at) =>
          match Decode(raw, at + |INFO_KEY|)
          case None => Err(Endless)
          case Some(Fail(e)) => Err(DecodeFailed(e))
          case Some(Got(_, end)) => Ok(Slice(raw, at + |INFO_KEY|, end))
  }

  method FindInfoStart(raw: seq<byte>) returns (r: Option<nat>)
    ensures r == match FindKey(raw, 0) case None => None case Some(at) => Some(at + |INFO_KEY|)
  {
    var i := 0;
    while i + |INFO_KEY| <= |raw|
      invariant 0 <= i
      invariant FindKey(raw, 0) == FindKey(raw, i)
    {
      if raw[i..i + |INFO_KEY|] == INFO_KEY {
        return Some(i + |INFO_KEY|);
      }
      i := i + 1;
    }
    return None;
  }

  /** The steps of torrent parsing that lead to the info hash. */
  method HashInfo(raw: seq<byte>, sha1: seq<byte> -> seq<byte>) returns (r: Result<seq<byte>, MetainfoError>)
    ensures r == match InfoSlice(raw) case Err(e) => Err(e) case Ok(slice) => Ok(sha1(slice))
  {
    hide RunAt;
    var root := Parse(raw, 0, EnoughTurns(raw));
    if root.None? {
      return Err(Endless);
    }
    if root.value.Fail? {
      return Err(DecodeFailed(root.value.error));
    }
    if !root.value.value.Dict? {
      return Err(RootNotDict);
    }
    var start := FindInfoStart(raw);
    if start.None? {
      return Err(MissingInfo);
    }
    var info := Parse(raw, start.value, EnoughTurns(raw));
    if info.None? {
      return Err(Endless);
    }
    if info.value.Fail? {
      return Err(DecodeFailed(info.value.error));
    }
    return Ok(sha1(Slice(raw, start.value, info.value.pos)));
  }

  // ---- the info dictionary ----

  lemma {:induction false} EntriesConcat(v: Value, x: seq<seq<byte>>, y: seq<seq<byte>>)
    requires v.Dict? && (forall k :: k in x ==> k in v.entries) && (forall k :: k in y ==> k in v.entries)
    ensures EncodeEntries(v, x + y) == EncodeEntries(v, x) + EncodeEntries(v, y)
    decreases |x|
  {
    hide Encode, EncodeString;
    if x == [] {
      assert x + y == y;
      assert [] + EncodeEntries(v, y) == EncodeEntries(v, y);
    } else {
      assert (x + y)[0] == x[0] && (x + y)[1..] == x[1..] + y;
      EntriesConcat(v, x[1..], y);
      var first := EncodeString(x[0]) + Encode(v.entries[x[0]]);
      assert first + (EncodeEntries(v, x[1..]) + EncodeEntries(v, y)) ==
             first + EncodeEntries(v, x[1..]) + EncodeEntries(v, y);
    }
  }

  ghost predicate HasInfo(v: Value) {
    v.Dict? && INFO in v.entries
  }

  /** The keys that come before "info". */
  ghost function KeysBefore(v: Value): (r: seq<seq<byte>>)
    requires HasInfo(v)
    ensures |r| < |SortedKeys(v.entries.Keys)| && r == SortedKeys(v.entries.Keys)[..|r|]
    ensures SortedKeys(v.entries.Keys)[|r|] == INFO
  {
    var i :| 0 <= i < |SortedKeys(v.entries.Keys)| && SortedKeys(v.entries.Keys)[i] == INFO;
    SortedKeys(v.entries.Keys)[..i]
  }

  /** Where the top-level key "4:info" stands in the canonical encoding. */
  ghost function InfoKeyPlace(v: Value): nat
    requires HasInfo(v)
  {
    KeysBeforeIn(v);
    1 + |EncodeEntries(v, KeysBefore(v))|
  }

  lemma KeysBeforeIn(v: Value)
    requires HasInfo(v)
    ensures forall k :: k in KeysBefore(v) ==> k in v.entries
  {
    forall k | k in KeysBefore(v)
      ensures k in v.entries
    {
      assert k in SortedKeys(v.entries.Keys);
    }
  }

  lemma InfoKeyEncoded()
    ensures EncodeString(INFO) == INFO_KEY
  {
    assert EncodeNat(4) == [52];
  }

  lemma Regroup(a: seq<byte>, x: seq<byte>, y: seq<byte>, z: seq<byte>, b: seq<byte>)
    ensures a + (x + (y + z)) + b == (a + x) + (y + (z + b))
  {
  }

  /** Around one of its keys, a dictionary's entries are those before, its own, and those after. */
  lemma EntriesAround(v: Value, keys: seq<seq<byte>>, i: nat)
    requires v.Dict? && (forall k :: k in keys ==> k in v.entries) && i < |keys|
    ensures forall k :: k in keys[..i] || k in keys[i + 1..] ==> k in v.entries
    ensures EncodeEntries(v, keys) ==
            EncodeEntries(v, keys[..i])
            + ((EncodeString(keys[i]) + Encode(v.entries[keys[i]])) + EncodeEntries(v, keys[i + 1..]))
  {
    hide Encode, EncodeString;
    var rest := [keys[i]] + keys[i + 1..];
    assert keys == keys[..i] + rest;
    assert rest[1..] == keys[i + 1..];
    EntriesConcat(v, keys[..i], rest);
  }

  /** In the canonical encoding the key "4:info" and then the info value stand at their place. */
  lemma InfoStands(v: Value)
    requires HasInfo(v)
    ensures Stands(Encode(v), InfoKeyPlace(v), INFO_KEY + Encode(v.entries[INFO]))
  {
    var x, y, z := EncodeAround(v);
    var text := Encode(v);
    hide Encode, Stands, InfoKeyPlace;
    StandsWhole(text);
    Regroup([CHAR_D], x, y, z, [CHAR_E]);
    StandsSplits(text, 0, [CHAR_D] + x, y + (z + [CHAR_E]));
    StandsSplits(text, 1 + |x|, y, z + [CHAR_E]);
  }

  /** The entries before the info entry, the entry itself, and those after it. */
  lemma EncodeAround(v: Value) returns (x: seq<byte>, y: seq<byte>, z: seq<byte>)
    requires HasInfo(v)
    ensures Encode(v) == [CHAR_D] + (x + (y + z)) + [CHAR_E]
    ensures y == INFO_KEY + Encode(v.entries[INFO]) && InfoKeyPlace(v) == 1 + |x|
  {
    hide EncodeString, EncodeEntries, SortedKeys;
    KeysBeforeIn(v);
    InfoKeyEncoded();
    var keys, before := SortedKeys(v.entries.Keys), KeysBefore(v);
    EntriesAround(v, keys, |before|);
    x, y := EncodeEntries(v, before), INFO_KEY + Encode(v.entries[INFO]);
    z := EncodeEntries(v, keys[|before| + 1..]);
  }

  lemma StandsWhole(text: seq<byte>)
    ensures Stands(text, 0, text)
  {
  }

  /** The search finds the top-level key exactly when "4:info" stands nowhere before it. */
  lemma FindsTopLevelExactly(v: Value, suffix: seq<byte>)
    requires HasInfo(v)
    ensures FindKey(Encode(v) + suffix, 0) == Some(InfoKeyPlace(v)) <==>
            forall i: nat :: i < InfoKeyPlace(v) ==> !KeyAt(Encode(v) + suffix, i)
  {
    hide Encode, InfoKeyPlace, FindKey, Stands, KeyAt;
    KeyStands(v, suffix);
    FirstKeyExactly(Encode(v) + suffix, InfoKeyPlace(v));
  }

  /** The top-level key stands at its place, with its value after it. */
  lemma KeyStands(v: Value, suffix: seq<byte>)
    requires HasInfo(v)
    ensures KeyAt(Encode(v) + suffix, InfoKeyPlace(v))
    ensures Stands(Encode(v) + suffix, InfoKeyPlace(v) + |INFO_KEY|, Encode(v.entries[INFO]))
  {
    hide Encode, InfoKeyPlace, Stands;
    InfoStands(v);
    StandsMore(Encode(v), suffix, InfoKeyPlace(v), INFO_KEY + Encode(v.entries[INFO]));
    StandsSplits(Encode(v) + suffix, InfoKeyPlace(v), INFO_KEY, Encode(v.entries[INFO]));
  }

  lemma FirstKeyExactly(raw: seq<byte>, place: nat)
    requires KeyAt(raw, place)
    ensures FindKey(raw, 0) == Some(place) <==> forall i: nat :: i < place ==> !KeyAt(raw, i)
    ensures FindKey(raw, 0).Some? && FindKey(raw, 0).value <= place
  {
    hide FindKey, KeyAt;
    var found := FindKey(raw, 0);
  }

  lemma StandsMore(text: seq<byte>, suffix: seq<byte>, pos: nat, piece: seq<byte>)
    requires Stands(text, pos, piece)
    ensures Stands(text + suffix, pos, piece)
  {
    assert (text + suffix)[pos..pos + |piece|] == text[pos..pos + |piece|];
  }

  /** The info slice is the info dictionary: where "4:info" stands nowhere before the top-level key,
      the hashed bytes of a canonical torrent are exactly the encoding of its info value, and
      decoding at their start yields that value. */
  lemma InfoSliceIsInfo(v: Value, suffix: seq<byte>)
    requires HasInfo(v) && Fits(v) && |Encode(v) + suffix| < TWO_64
    requires forall i: nat :: i < InfoKeyPlace(v) ==> !KeyAt(Encode(v) + suffix, i)
    ensures InfoSlice(Encode(v) + suffix) == Ok(Encode(v.entries[INFO]))
    ensures Decode(Encode(v) + suffix, InfoKeyPlace(v) + |INFO_KEY|) ==
            Some(Got(v.entries[INFO], InfoKeyPlace(v) + |INFO_KEY| + |Encode(v.entries[INFO])|))
  {
    hide Encode, InfoKeyPlace, FindKey, KeyAt, ParseAt, Decode, Fits;
    var raw, info := Encode(v) + suffix, v.entries[INFO];
    FindsTopLevelExactly(v, suffix);
    InfoStands(v);
    FitsInfo(v);
    assert [] + Encode(v) + suffix == raw;
    RoundTrip([], v, suffix);
    StandsMore(Encode(v), suffix, InfoKeyPlace(v), INFO_KEY + Encode(info));
    StandsSplits(raw, InfoKeyPlace(v), INFO_KEY, Encode(info));
    DecodeEncoded(raw, InfoKeyPlace(v) + |INFO_KEY|, info);
  }

  lemma FitsInfo(v: Value)
    requires HasInfo(v) && Fits(v)
    ensures Fits(v.entries[INFO])
  {
  }

  /** The hashed bytes of a canonical torrent are the encoding of its info value exactly when that
      encoding follows the first "4:info" in the file. */
  lemma CanonicalSliceExactly(v: Value, suffix: seq<byte>)
    requires HasInfo(v) && Fits(v) && |Encode(v) + suffix| < TWO_64
    ensures var first := FindKey(Encode(v) + suffix, 0);
            && first.Some? && first.value <= InfoKeyPlace(v)
            && (InfoSlice(Encode(v) + suffix) == Ok(Encode(v.entries[INFO])) <==>
                Stands(Encode(v) + suffix, first.value + |INFO_KEY|, Encode(v.entries[INFO])))
  {
    hide Encode, InfoKeyPlace, FindKey, ParseAt, Decode, Fits;
    var raw, info := Encode(v) + suffix, v.entries[INFO];
    InfoStands(v);
    FitsInfo(v);
    assert [] + Encode(v) + suffix == raw;
    RoundTrip([], v, suffix);
    StandsMore(Encode(v), suffix, InfoKeyPlace(v), INFO_KEY + Encode(info));
    StandsSplits(raw, InfoKeyPlace(v), INFO_KEY, Encode(info));
    assert KeyAt(raw, InfoKeyPlace(v));
    var start := FindKey(raw, 0).value + |INFO_KEY|;
    if Stands(raw, start, Encode(info)) {
      DecodeEncoded(raw, start, info);
    }
  }

  // ---- any torrent, canonical or not ----

  /** An entry of a dictionary: its key, and where its value stands. */
  datatype Entry = Entry(key: seq<byte>, start: nat, end: nat)

  /** The entries of a dictionary from `pos` on, in the order in which they are written. */
  function EntriesFrom(raw: seq<byte>, pos: nat): seq<Entry>
    requires pos <= |raw|
    decreases |raw| - pos
  {
    if pos == |raw| || raw[pos] == CHAR_E then []
    else
      match ParseAt(raw, pos)
      case Got(Str(key), start) =>
        (match ParseAt(raw, start)
         case Got(_, end) => [Entry(key, start, end)] + EntriesFrom(raw, end)
         case Fail(_) => [])
      case _ => []
  }

  /** Entry `i` is the last one for its key. */
  predicate LastFor(entries: seq<Entry>, i: nat) {
    i < |entries| && forall j :: i < j < |entries| ==> entries[j].key != entries[i].key
  }

  /** A dictionary maps each key to the value of the last entry for it. */
  lemma {:induction false} EntriesMean(raw: seq<byte>, pos: nat, before: map<seq<byte>, Value>, i: nat)
    requires pos <= |raw| && ParseEntries(raw, pos, before).Got?
    requires i < |EntriesFrom(raw, pos)|
    ensures var e, root := EntriesFrom(raw, pos)[i], ParseEntries(raw, pos, before).value;
            && ParseAt(raw, e.start).Got? && ParseAt(raw, e.start).pos == e.end
            && e.start < e.end <= |raw| && e.key in root
            && (LastFor(EntriesFrom(raw, pos), i) ==> root[e.key] == ParseAt(raw, e.start).value)
    decreases |raw| - pos
  {
    hide ParseAt;
    var entries := EntriesFrom(raw, pos);
    var key := ParseAt(raw, pos);
    var value := ParseAt(raw, key.pos);
    var after := before[key.value.s := value.value];
    if i == 0 {
      KeyKept(raw, value.pos, after, key.value.s);
      assert LastFor(entries, 0) ==> forall j :: 0 <= j < |entries[1..]| ==> entries[1..][j] == entries[j + 1];
    } else {
      EntriesMean(raw, value.pos, after, i - 1);
      var rest := EntriesFrom(raw, value.pos);
      assert forall j :: 0 <= j < |rest| ==> rest[j] == entries[j + 1];
    }
  }

  /** A key that is there stays, and keeps its value unless it is written again. */
  lemma {:induction false} KeyKept(raw: seq<byte>, pos: nat, before: map<seq<byte>, Value>, k: seq<byte>)
    requires pos <= |raw| && ParseEntries(raw, pos, before).Got? && k in before
    ensures k in ParseEntries(raw, pos, before).value
    ensures NotAmong(EntriesFrom(raw, pos), k) ==> ParseEntries(raw, pos, before).value[k] == before[k]
    decreases |raw| - pos
  {
    hide ParseAt, NotAmong;
    if raw[pos] != CHAR_E {
      var key := ParseAt(raw, pos);
      var value := ParseAt(raw, key.pos);
      KeyKept(raw, value.pos, before[key.value.s := value.value], k);
      NotAmongRest(Entry(key.value.s, key.pos, value.pos), EntriesFrom(raw, value.pos), k);
    }
  }

  predicate NotAmong(entries: seq<Entry>, k: seq<byte>) {
    forall j :: 0 <= j < |entries| ==> entries[j].key != k
  }

  lemma NotAmongRest(e: Entry, rest: seq<Entry>, k: seq<byte>)
    ensures NotAmong([e] + rest, k) <==> e.key != k && NotAmong(rest, k)
  {
    assert ([e] + rest)[0] == e;
    assert forall j :: 0 <= j < |rest| ==> ([e] + rest)[j + 1] == rest[j];
  }

  /** The data is a dictionary that decodes as it is meant, and its entry `i` is the one for "info". */
  predicate HoldsInfo(raw: seq<byte>, i: nat) {
    && raw != [] && raw[0] == CHAR_D && ParseAt(raw, 0).Got?
    && LastFor(EntriesFrom(raw, 1), i) && EntriesFrom(raw, 1)[i].key == INFO
  }

  /** In any torrent, with its keys in any order and its lengths in any spelling, the bytes hashed are
      those of its info value exactly when they follow the first "4:info" in the file. */
  lemma InfoSliceExactly(raw: seq<byte>, i: nat)
    requires |raw| < TWO_64 && HoldsInfo(raw, i)
    ensures var e, first := EntriesFrom(raw, 1)[i], FindKey(raw, 0);
            && e.start < e.end <= |raw|
            && Decode(raw, 0).Some? && Decode(raw, 0).value.Got?
            && var root := Decode(raw, 0).value.value;
            && root.Dict? && INFO in root.entries
            && Decode(raw, e.start) == Some(Got(root.entries[INFO], e.end))
            && (InfoSlice(raw) == Ok(raw[e.start..e.end]) <==>
                first.Some? && Stands(raw, first.value + |INFO_KEY|, raw[e.start..e.end]))
  {
    hide ParseAt, Decode, FindKey, ParseEntries, EntriesFrom, Stands, Slice;
    var e, first := EntriesFrom(raw, 1)[i], FindKey(raw, 0);
    RootEntries(raw);
    EntriesMean(raw, 1, map[], i);
    AcceptedAsMeant(raw, 0);
    AcceptedAsMeant(raw, e.start);
    if first.Some? {
      KeyInside(raw, first.value);
      SliceAtExactly(raw, e.start, e.end, first.value + |INFO_KEY|);
    }
  }

  lemma KeyInside(raw: seq<byte>, i: nat)
    requires KeyAt(raw, i)
    ensures i + |INFO_KEY| <= |raw|
  {
  }

  /** Decoding at `start` takes the bytes of the value at `a` exactly when they stand there. */
  lemma SliceAtExactly(raw: seq<byte>, a: nat, b: nat, start: nat)
    requires |raw| < TWO_64 && a < b <= |raw| && start <= |raw|
    requires ParseAt(raw, a).Got? && ParseAt(raw, a).pos == b
    ensures (Decode(raw, start).Some? && Decode(raw, start).value.Got?
             && Slice(raw, start, Decode(raw, start).value.pos) == raw[a..b])
            <==> Stands(raw, start, raw[a..b])
  {
    hide ParseAt, Decode;
    if Stands(raw, start, raw[a..b]) {
      SameBytes(raw, a, b, start);
      ParseLocal(raw, a, raw, start);
      AcceptedAsMeant(raw, start);
    }
  }

  lemma RootEntries(raw: seq<byte>)
    requires raw != [] && raw[0] == CHAR_D && ParseAt(raw, 0).Got?
    ensures ParseEntries(raw, 1, map[]).Got?
    ensures ParseAt(raw, 0).value == Dict(ParseEntries(raw, 1, map[]).value)
  {
  }

  lemma SameBytes(raw: seq<byte>, a: nat, b: nat, c: nat)
    requires a <= b <= |raw| && Stands(raw, c, raw[a..b])
    ensures Agrees(raw, a, b, raw, c)
  {
    forall i | a <= i < b
      ensures raw[i] == raw[c + (i - a)]
    {
      StandsAt(raw, c, raw[a..b], i - a);
    }
  }

  // ---- when the first "4:info" is not the key ----

  /** "comment" */
  const COMMENT: seq<byte> := [99, 111, 109, 109, 101, 110, 116]

  /** A torrent whose comment is the text "4:info". */
  const MISLEADING: Value := Dict(map[COMMENT := Str(INFO_KEY), INFO := Dict(map[])])

  /** d 7:comment 6:4:info 4:info d e e */
  const MISLEADING_RAW: seq<byte> :=
    [100, 55, 58, 99, 111, 109, 109, 101, 110, 116, 54, 58, 52, 58, 105, 110, 102, 111,
     52, 58, 105, 110, 102, 111, 100, 101, 101]

  /** The torrent's root decodes, its info value is the empty dictionary "de", and yet the bytes
      hashed are "4:info". */
  lemma WrongSlice()
    ensures Decode(MISLEADING_RAW, 0) == Some(Got(MISLEADING, |MISLEADING_RAW|))
    ensures InfoSlice(MISLEADING_RAW) == Ok(INFO_KEY)
    ensures Encode(MISLEADING.entries[INFO]) == [CHAR_D, CHAR_E]
  {
    var raw := MISLEADING_RAW;
    hide Decode, Encode, FindKey;
    EmptyDictEncoded();
    MisleadingDecodes(raw);
    FirstKeyIsComment(raw);
    CommentDecodes(raw);
    assert raw[18..24] == INFO_KEY;
  }

  lemma EmptyDictEncoded()
    ensures Encode(Dict(map[])) == [CHAR_D, CHAR_E]
  {
    var empty: map<seq<byte>, Value> := map[];
    assert empty.Keys == {};
    assert SortedKeys(empty.Keys) == [];
  }

  lemma TwoEntries(v: Value, j: seq<byte>, k: seq<byte>)
    requires v.Dict? && j in v.entries && k in v.entries
    ensures EncodeEntries(v, [j, k]) ==
            EncodeString(j) + Encode(v.entries[j]) + (EncodeString(k) + Encode(v.entries[k]))
  {
    hide Encode, EncodeString;
    assert [j, k][1..] == [k] && [k][1..] == [];
    assert EncodeEntries(v, [k]) == EncodeString(k) + Encode(v.entries[k]) + EncodeEntries(v, [k][1..]);
  }

  lemma MisleadingStrings()
    ensures EncodeString(COMMENT) == [55, 58, 99, 111, 109, 109, 101, 110, 116]
    ensures EncodeString(INFO_KEY) == [54, 58, 52, 58, 105, 110, 102, 111]
    ensures EncodeString(INFO) == [52, 58, 105, 110, 102, 111]
  {
    assert EncodeNat(7) == [55] && EncodeNat(6) == [54] && EncodeNat(4) == [52];
  }

  lemma MisleadingLayout()
    ensures MISLEADING_RAW ==
            [CHAR_D] + ([55, 58, 99, 111, 109, 109, 101, 110, 116] + [54, 58, 52, 58, 105, 110, 102, 111]
                        + ([52, 58, 105, 110, 102, 111] + [CHAR_D, CHAR_E]) + [CHAR_E])
  {
  }

  lemma MisleadingKeys()
    ensures forall k :: k in [COMMENT, INFO] <==> k in MISLEADING.entries
  {
  }

  lemma MisleadingEntries()
    ensures COMMENT in MISLEADING.entries && INFO in MISLEADING.entries
    ensures Encode(MISLEADING.entries[COMMENT]) == EncodeString(INFO_KEY)
    ensures Encode(MISLEADING.entries[INFO]) == [CHAR_D, CHAR_E]
  {
    hide EncodeString;
    EmptyDictEncoded();
    assert |COMMENT| != |INFO|;
  }

  lemma MisleadingDecodes(raw: seq<byte>)
    requires raw == MISLEADING_RAW
    ensures Decode(raw, 0) == Some(Got(MISLEADING, |raw|))
  {
    hide EncodeString, EncodeEntries, Encode, Decode, Fits, Stands;
    MisleadingKeys();
    MisleadingEntries();
    MisleadingStrings();
    TwoEntries(MISLEADING, COMMENT, INFO);
    MisleadingLayout();
    MisleadingFits();
    StandsWhole(raw);
    AnyKeyOrder(raw, 0, MISLEADING, [COMMENT, INFO]);
  }

  lemma MisleadingFits()
    ensures Fits(MISLEADING)
  {
  }

  lemma FirstKeyIsComment(raw: seq<byte>)
    requires raw == MISLEADING_RAW
    ensures FindKey(raw, 0) == Some(12)
  {
    assert KeyAt(raw, 12);
    forall i: nat | i < 12
      ensures !KeyAt(raw, i)
    {
      assert raw[i] != 52;
      if KeyAt(raw, i) {
        StandsAt(raw, i, INFO_KEY, 0);
      }
    }
    var found := FindKey(raw, 0);
  }

  lemma CommentDecodes(raw: seq<byte>)
    requires raw == MISLEADING_RAW
    ensures Decode(raw, 18) == Some(Got(Str(INFO), 24))
  {
    InfoKeyEncoded();
    assert raw[18..24] == INFO_KEY;
    StringRoundTrip(raw, 18, INFO);
    AcceptedAsMeant(raw, 18);
  }

  // ---- piece hashes ----

  const HASH_SIZE: nat := 20

  function Joined(pieces: seq<seq<byte>>): seq<byte> {
    if pieces == [] then [] else Joined(pieces[..|pieces| - 1]) + pieces[|pieces| - 1]
  }

  /** The piece hashes, 20 bytes each, in order; refused when the text is not a whole number of
      them. */
  method SplitPieces(raw: seq<byte>) returns (r: Result<seq<seq<byte>>, MetainfoError>)
    ensures r.Ok? <==> |raw| % 20 == 0
    ensures r.Ok? ==> Joined(r.value) == raw && 20 * |r.value| == |raw|
    ensures r.Ok? ==> forall i :: 0 <= i < |r.value| ==> r.value[i] == raw[20 * i..20 * i + 20]
    ensures r.Err? ==> r.error == PiecesLength
  {
    if |raw| % HASH_SIZE != 0 {
      return Err(PiecesLength);
    }
    var pieces: seq<seq<byte>> := [];
    var i := 0;
    while i < |raw|
      invariant 0 <= i <= |raw| && i == HASH_SIZE * |pieces|
      invariant Joined(pieces) == raw[..i]
      invariant forall k :: 0 <= k < |pieces| ==> pieces[k] == raw[20 * k..20 * k + 20]
    {
      var hash := raw[i..i + HASH_SIZE];
      assert (pieces + [hash])[..|pieces|] == pieces;
      assert raw[..i + HASH_SIZE] == raw[..i] + hash;
      pieces := pieces + [hash];
      i := i + HASH_SIZE;
    }
    assert raw[..i] == raw;
    return Ok(pieces);
  }
}
