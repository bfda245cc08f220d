/** The bencode decoder: values, the decoder as it is meant, the decoder as it is written, and the
    parser with its loops. */
module Bencode {
  import opened Bytes
  import opened Wrappers

  const TWO_63: int := 0x8000_0000_0000_0000
  const TWO_64: int := 0x1_0000_0000_0000_0000

  const CHAR_I: byte := 105
  const CHAR_L: byte := 108
  const CHAR_D: byte := 100
  const CHAR_E: byte := 101
  const COLON: byte := 58
  const MINUS: byte := 45

  datatype Value =
    | Integer(i: int)
    | Str(s: seq<byte>)
    | List(items: seq<Value>)
    | Dict(entries: map<seq<byte>, Value>)

  /** Each way the parser throws. */
  datatype Error =
    | UnexpectedEnd
    | UnterminatedInteger
    | EmptyInteger
    | InvalidInteger
    | IntegerOutOfRange
    | NoColon
    | LengthOutOfRange
    | StringOutOfBounds
    | UnterminatedList
    | KeyNotString
    | UnterminatedDict
    | UnknownType

  /** A value and the cursor just past it, or an error. */
  datatype Parsed<T> = Got(value: T, pos: nat) | Fail(error: Error)

  predicate IsDigit(b: byte) {
    48 <= b <= 57
  }

  predicate AllDigits(s: seq<byte>) {
    forall i :: 0 <= i < |s| ==> IsDigit(s[i])
  }

  /** The number a run of digits writes; only its leading digits count. */
  function Number(s: seq<byte>): nat
    requires AllDigits(s)
  {
    if s == [] then 0 else Number(s[..|s| - 1]) * 10 + (s[|s| - 1] - 48)
  }

  /** The first `c` at or after `from`, or the end of the data. */
  function Find(data: seq<byte>, from: nat, c: byte): (r: nat)
    requires from <= |data|
    ensures from <= r <= |data|
    ensures forall i :: from <= i < r ==> data[i] != c
    ensures r < |data| ==> data[r] == c
    decreases |data| - from
  {
    if from == |data| || data[from] == c then from else Find(data, from + 1, c)
  }

  /** How many digits a text begins with. */
  function DigitCount(s: seq<byte>, from: nat): (n: nat)
    requires from <= |s| && AllDigits(s[..from])
    ensures from <= n <= |s| && AllDigits(s[..n])
    ensures n < |s| ==> !IsDigit(s[n])
    decreases |s| - from
  {
    if from == |s| || !IsDigit(s[from]) then from
    else
      assert s[..from + 1] == s[..from] + [s[from]];
      DigitCount(s, from + 1)
  }

  // ---- scalars ----

  /** The text between `i` and `e`: an optional minus, then digits, in the 64-bit range. */
  function IntegerOf(num: seq<byte>): Parsed<Value> {
    if num == [] then Fail(EmptyInteger)
    else
      var digits := if num[0] == MINUS then num[1..] else num;
      if !AllDigits(digits) || digits == [] then Fail(InvalidInteger)
      else
        var magnitude: int := Number(digits);
        var value: int := if num[0] == MINUS then -magnitude else magnitude;
        if -TWO_63 <= value < TWO_63 then Got(Integer(value), 0) else Fail(IntegerOutOfRange)
  }

  function ParseInteger(data: seq<byte>, pos: nat): Parsed<Value>
    requires pos < |data| && data[pos] == CHAR_I
  {
    var end := Find(data, pos + 1, CHAR_E);
    if end == |data| then Fail(UnterminatedInteger)
    else
      match IntegerOf(data[pos + 1..end])
      case Fail(e) => Fail(e)
      case Got(v, _) => Got(v, end + 1)
  }

  /** The head of a string: the length it states, and where its text starts. */
  function StringHead(data: seq<byte>, pos: nat): (r: Parsed<nat>)
    requires pos < |data| && IsDigit(data[pos])
    ensures r.Got? ==> pos < r.pos <= |data| && r.value < TWO_64
  {
    var colon := Find(data, pos, COLON);
    if colon == |data| then Fail(NoColon)
    else
      var text := data[pos..colon];
      var len := Number(text[..DigitCount(text, 0)]);
      if len >= TWO_64 then Fail(LengthOutOfRange) else Got(len, colon + 1)
  }

  /** A string as it is meant: it lies inside the data. */
  function ParseString(data: seq<byte>, pos: nat): Parsed<Value>
    requires pos < |data| && IsDigit(data[pos])
  {
    match StringHead(data, pos)
    case Fail(e) => Fail(e)
    case Got(len, start) =>
      if start + len > |data| then Fail(StringOutOfBounds) else Got(Str(data[start..start + len]), start + len)
  }

  /** `pos + len` as the source computes it, in 64 bits. */
  function Cursor64(pos: nat, len: nat): nat {
    (pos + len) % TWO_64
  }

  /** `substr`: at most `len` bytes from `start` on. */
  function Substring(data: seq<byte>, start: nat, len: nat): seq<byte>
    requires start <= |data|
  {
    if start + len > |data| then data[start..] else data[start..start + len]
  }

  /** A string as the source reads it: a sum that wraps passes the bound check, the text is cut off at
      the end of the data, and the cursor goes back. */
  function RunString(data: seq<byte>, pos: nat): Parsed<Value>
    requires pos < |data| && IsDigit(data[pos])
  {
    match StringHead(data, pos)
    case Fail(e) => Fail(e)
    case Got(len, start) =>
      var end := Cursor64(start, len);
      if end > |data| then Fail(StringOutOfBounds) else Got(Str(Substring(data, start, len)), end)
  }

  /** The string at `pos` states a length for which the sum wraps. */
  predicate Wraps(data: seq<byte>, pos: nat) {
    && pos < |data| && IsDigit(data[pos])
    && StringHead(data, pos).Got?
    && StringHead(data, pos).pos + StringHead(data, pos).value >= TWO_64
  }

  // ---- the grammar, as it is meant ----

  function ParseAt(data: seq<byte>, pos: nat): (r: Parsed<Value>)
    ensures r.Got? ==> pos < r.pos <= |data|
    decreases |data| - pos, 1
  {
    if pos >= |data| then Fail(UnexpectedEnd)
    else if data[pos] == CHAR_I then ParseInteger(data, pos)
    else if IsDigit(data[pos]) then ParseString(data, pos)
    else if data[pos] == CHAR_L then
      (match ParseItems(data, pos + 1, [])
       case Fail(e) => Fail(e)
       case Got(items, p) => Got(List(items), p))
    else if data[pos] == CHAR_D then
      (match ParseEntries(data, pos + 1, map[])
       case Fail(e) => Fail(e)
       case Got(entries, p) => Got(Dict(entries), p))
    else Fail(UnknownType)
  }

  /** The rest of a list, given the items before it. */
  function ParseItems(data: seq<byte>, pos: nat, items: seq<Value>): (r: Parsed<seq<Value>>)
    requires pos <= |data|
    ensures r.Got? ==> pos < r.pos <= |data|
    decreases |data| - pos, 2
  {
    if pos == |data| then Fail(UnterminatedList)
    else if data[pos] == CHAR_E then Got(items, pos + 1)
    else
      match ParseAt(data, pos)
      case Fail(e) => Fail(e)
      case Got(v, p) => ParseItems(data, p, items + [v])
  }

  /** The rest of a dictionary, given the entries before it; a later value for a key wins. */
  function ParseEntries(data: seq<byte>, pos: nat, entries: map<seq<byte>, Value>): (r: Parsed<map<seq<byte>, Value>>)
    requires pos <= |data|
    ensures r.Got? ==> pos < r.pos <= |data|
    decreases |data| - pos, 2
  {
    if pos == |data| then Fail(UnterminatedDict)
    else if data[pos] == CHAR_E then Got(entries, pos + 1)
    else
      match ParseAt(data, pos)
      case Fail(e) => Fail(e)
      case Got(key, p) =>
        if !key.Str? then Fail(KeyNotString)
        else
          match ParseAt(data, p)
          case Fail(e) => Fail(e)
          case Got(v, p') => ParseEntries(data, p', entries[key.s := v])
  }

  // ---- the grammar, as it is written ----

  /** What the source does within a number of turns of its list and dictionary loops; `None` when
      they do not suffice. Turns count along one path of nested calls. */
  function RunAt(data: seq<byte>, pos: nat, turns: nat): (r: Option<Parsed<Value>>)
    ensures r.Some? && r.value.Got? ==> r.value.pos <= |data|
    decreases turns, 1
  {
    if pos >= |data| then Some(Fail(UnexpectedEnd))
    else if data[pos] == CHAR_I then Some(ParseInteger(data, pos))
    else if IsDigit(data[pos]) then Some(RunString(data, pos))
    else if data[pos] == CHAR_L then
      (match RunItems(data, pos + 1, [], turns)
       case None => None
       case Some(Fail(e)) => Some(Fail(e))
       case Some(Got(items, p)) => Some(Got(List(items), p)))
    else if data[pos] == CHAR_D then
      (match RunEntries(data, pos + 1, map[], turns)
       case None => None
       case Some(Fail(e)) => Some(Fail(e))
       case Some(Got(entries, p)) => Some(Got(Dict(entries), p)))
    else Some(Fail(UnknownType))
  }

  function RunItems(data: seq<byte>, pos: nat, items: seq<Value>, turns: nat): (r: Option<Parsed<seq<Value>>>)
    requires pos <= |data|
    ensures r.Some? && r.value.Got? ==> r.value.pos <= |data|
    decreases turns, 0
  {
    if pos == |data| then Some(Fail(UnterminatedList))
    else if data[pos] == CHAR_E then Some(Got(items, pos + 1))
    else if turns == 0 then None
    else
      match RunAt(data, pos, turns - 1)
      case None => None
      case Some(Fail(e)) => Some(Fail(e))
      case Some(Got(v, p)) => RunItems(data, p, items + [v], turns - 1)
  }

  function RunEntries(data: seq<byte>, pos: nat, entries: map<seq<byte>, Value>, turns: nat)
    : (r: Option<Parsed<map<seq<byte>, Value>>>)
    requires pos <= |data|
    ensures r.Some? && r.value.Got? ==> r.value.pos <= |data|
    decreases turns, 0
  {
    if pos == |data| then Some(Fail(UnterminatedDict))
    else if data[pos] == CHAR_E then Some(Got(entries, pos + 1))
    else if turns == 0 then None
    else
      match RunAt(data, pos, turns - 1)
      case None => None
      case Some(Fail(e)) => Some(Fail(e))
      case Some(Got(key, p)) =>
        if !key.Str? then Some(Fail(KeyNotString))
        else
          match RunAt(data, p, turns - 1)
          case None => None
          case Some(Fail(e)) => Some(Fail(e))
          case Some(Got(v, p')) => RunEntries(data, p', entries[key.s := v], turns - 1)
  }

  /** Turns enough for every decode that ends at all (`BencodeTurns.EndsExactly`). */
  function EnoughTurns(data: seq<byte>): nat {
    2 * |data| + 3
  }

  /** What the source's decoder does: its result, or `None` when it never ends. */
  function Decode(data: seq<byte>, pos: nat): (r: Option<Parsed<Value>>)
    ensures r.Some? && r.value.Got? ==> r.value.pos <= |data|
  {
    RunAt(data, pos, EnoughTurns(data))
  }

  /** The bound check on a string lets it through, with the cursor not behind where it started,
      exactly when the string lies inside the data. */
  lemma BoundCheckExactly(start: nat, len: nat, size: nat)
    requires start <= size < TWO_64 && len < TWO_64
    ensures start <= Cursor64(start, len) <= size <==> start + len <= size
    ensures start + len >= TWO_64 ==> Cursor64(start, len) < start
  {
    if start + len >= TWO_64 {
      assert start + len == TWO_64 + (start + len - TWO_64);
      assert Cursor64(start, len) == start + len - TWO_64;
    }
  }

  // ---- the parser ----

  method Scan(data: seq<byte>, from: nat, c: byte) returns (pos: nat)
    requires from <= |data|
    ensures pos == Find(data, from, c)
  {
    pos := from;
    while pos < |data| && data[pos] != c
      invariant from <= pos <= |data|
      invariant Find(data, from, c) == Find(data, pos, c)
    {
      pos := pos + 1;
    }
  }

  method ReadInteger(data: seq<byte>, pos: nat) returns (r: Parsed<Value>)
    requires pos < |data| && data[pos] == CHAR_I
    ensures r == ParseInteger(data, pos)
  {
    var end := Scan(data, pos + 1, CHAR_E);
    if end >= |data| {
      return Fail(UnterminatedInteger);
    }
    var num := data[pos + 1..end];
    if num == [] {
      return Fail(EmptyInteger);
    }
    var first := if num[0] == MINUS then 1 else 0;
    var digits := num[first..];
    var i := 0;
    while i < |digits|
      invariant 0 <= i <= |digits|
      invariant AllDigits(digits[..i])
    {
      if !IsDigit(digits[i]) {
        return Fail(InvalidInteger);
      }
      assert digits[..i + 1] == digits[..i] + [digits[i]];
      i := i + 1;
    }
    assert digits[..i] == digits;
    if digits == [] {
      return Fail(InvalidInteger);
    }
    var n := ReadNumber(digits);
    var magnitude: int := n;
    var value: int := if num[0] == MINUS then -magnitude else magnitude;
    if value < -TWO_63 || value >= TWO_63 {
      return Fail(IntegerOutOfRange);
    }
    return Got(Integer(value), end + 1);
  }

  method ReadNumber(digits: seq<byte>) returns (n: nat)
    requires AllDigits(digits)
    ensures n == Number(digits)
  {
    n := 0;
    for i := 0 to |digits|
      invariant n == Number(digits[..i])
    {
      assert digits[..i + 1][..i] == digits[..i];
      n := n * 10 + (digits[i] - 48);
    }
    assert digits[..|digits|] == digits;
  }

  method ReadString(data: seq<byte>, pos: nat) returns (r: Parsed<Value>)
    requires pos < |data| && IsDigit(data[pos])
    ensures r == RunString(data, pos)
  {
    var colon := Scan(data, pos, COLON);
    if colon >= |data| {
      return Fail(NoColon);
    }
    var text := data[pos..colon];
    var len := ReadNumber(text[..DigitCount(text, 0)]);
    if len >= TWO_64 {
      return Fail(LengthOutOfRange);
    }
    var start := colon + 1;
    if (start + len) % TWO_64 > |data| {
      return Fail(StringOutOfBounds);
    }
    var str := Substring(data, start, len);
    return Got(Str(str), (start + len) % TWO_64);
  }

  /** The recursive-descent parser, stopped when its loops have taken `turns` turns along a path. */
  method Parse(data: seq<byte>, pos: nat, turns: nat) returns (r: Option<Parsed<Value>>)
    ensures r == RunAt(data, pos, turns)
    decreases turns, 1
  {
    if pos >= |data| {
      return Some(Fail(UnexpectedEnd));
    }
    var c := data[pos];
    if c == CHAR_I {
      var number := ReadInteger(data, pos);
      r := Some(number);
    } else if IsDigit(c) {
      var str := ReadString(data, pos);
      r := Some(str);
    } else if c == CHAR_L {
      r := ReadList(data, pos, turns);
    } else if c == CHAR_D {
      r := ReadDict(data, pos, turns);
    } else {
      r := Some(Fail(UnknownType));
    }
  }

  method ReadList(data: seq<byte>, pos: nat, turns: nat) returns (r: Option<Parsed<Value>>)
    requires pos < |data| && data[pos] == CHAR_L
    ensures r == RunAt(data, pos, turns)
    decreases turns, 0
  {
    hide RunAt;
    var cursor: nat, left: nat := pos + 1, turns;
    var items: seq<Value> := [];
    while cursor < |data| && data[cursor] != CHAR_E
      invariant cursor <= |data| && left <= turns
      invariant RunItems(data, pos + 1, [], turns) == RunItems(data, cursor, items, left)
      decreases left
    {
      if left == 0 {
        ListRuns(data, pos, turns);
        return None;
      }
      left := left - 1;
      var item := Parse(data, cursor, left);
      if item.None? || item.value.Fail? {
        ListRuns(data, pos, turns);
        return item;
      }
      items := items + [item.value.value];
      cursor := item.value.pos;
    }
    ListRuns(data, pos, turns);
    if cursor >= |data| {
      return Some(Fail(UnterminatedList));
    }
    return Some(Got(List(items), cursor + 1));
  }

  lemma ListRuns(data: seq<byte>, pos: nat, turns: nat)
    requires pos < |data| && data[pos] == CHAR_L
    ensures RunAt(data, pos, turns) ==
            match RunItems(data, pos + 1, [], turns)
            case None => None
            case Some(Fail(e)) => Some(Fail(e))
            case Some(Got(items, p)) => Some(Got(List(items), p))
  {
  }

  method ReadDict(data: seq<byte>, pos: nat, turns: nat) returns (r: Option<Parsed<Value>>)
    requires pos < |data| && data[pos] == CHAR_D
    ensures r == RunAt(data, pos, turns)
    decreases turns, 0
  {
    hide RunAt;
    var cursor: nat, left: nat := pos + 1, turns;
    var entries: map<seq<byte>, Value> := map[];
    while cursor < |data| && data[cursor] != CHAR_E
      invariant cursor <= |data| && left <= turns
      invariant RunEntries(data, pos + 1, map[], turns) == RunEntries(data, cursor, entries, left)
      decreases left
    {
      if left == 0 {
        DictRuns(data, pos, turns);
        return None;
      }
      left := left - 1;
      var key := Parse(data, cursor, left);
      if key.None? || key.value.Fail? {
        DictRuns(data, pos, turns);
        return key;
      }
      if !key.value.value.Str? {
        DictRuns(data, pos, turns);
        return Some(Fail(KeyNotString));
      }
      var value := Parse(data, key.value.pos, left);
      if value.None? || value.value.Fail? {
        DictRuns(data, pos, turns);
        return value;
      }
      entries := entries[key.value.value.s := value.value.value];
      cursor := value.value.pos;
    }
    DictRuns(data, pos, turns);
    if cursor >= |data| {
      return Some(Fail(UnterminatedDict));
    }
    return Some(Got(Dict(entries), cursor + 1));
  }

  lemma DictRuns(data: seq<byte>, pos: nat, turns: nat)
    requires pos < |data| && data[pos] == CHAR_D
    ensures RunAt(data, pos, turns) ==
            match RunEntries(data, pos + 1, map[], turns)
            case None => None
            case Some(Fail(e)) => Some(Fail(e))
            case Some(Got(entries, p)) => Some(Got(Dict(entries), p))
  {
  }
}
