/** Lists of attributes (section 3.2.6 of RFC 7230): how they are parsed, and how values are quoted. */
module HttpAttributes {
  import opened Bytes

  datatype Attribute = Attribute(name: bytes, value: bytes)

  const EQUALS: byte := 61
  const QUOTE: byte := 34
  const BACKSLASH: byte := 92
  const COMMA: byte := 44

  // ---------- what the loops of the parser find ----------

  function SkipSpace(data: bytes, pos: nat): (r: nat)
    requires pos <= |data|
    ensures pos <= r <= |data| && (r < |data| ==> !IsSpace(data[r]))
    decreases |data| - pos
  {
    if pos < |data| && IsSpace(data[pos]) then SkipSpace(data, pos + 1) else pos
  }

  /** An equals sign does not end a name if another one or white space follows it, or nothing. */
  predicate IsEndOfAttributeName(pos: nat, data: bytes) {
    || pos >= |data|
    || IsSpace(data[pos])
    || (pos + 1 < |data| && data[pos] == EQUALS && !IsSpace(data[pos + 1]) && data[pos + 1] != EQUALS)
  }

  function NameEnd(data: bytes, pos: nat): (r: nat)
    requires pos <= |data|
    ensures pos <= r <= |data| && IsEndOfAttributeName(r, data)
    ensures forall i :: pos <= i < r ==> !IsEndOfAttributeName(i, data)
    decreases |data| - pos
  {
    if IsEndOfAttributeName(pos, data) then pos else NameEnd(data, pos + 1)
  }

  /** A quoted value from behind its opening quote, and the position behind it. */
  function QuotedValue(data: bytes, pos: nat): (r: (bytes, nat))
    requires pos <= |data|
    ensures pos <= r.1 <= |data|
    decreases |data| - pos
  {
    if pos == |data| then ([], pos)
    else if data[pos] == QUOTE then ([], pos + 1)
    else
      var at := if data[pos] == BACKSLASH && pos + 1 < |data| then pos + 1 else pos;
      var (value, end) := QuotedValue(data, at + 1);
      ([data[at]] + value, end)
  }

  function PlainEnd(data: bytes, pos: nat): (r: nat)
    requires pos <= |data|
    ensures pos <= r <= |data|
    decreases |data| - pos
  {
    if pos < |data| && !IsSpace(data[pos]) && data[pos] != COMMA then PlainEnd(data, pos + 1) else pos
  }

  /** The value, if there is one, behind a name that ends at `pos`. */
  function ValueAt(data: bytes, pos: nat): (r: (bytes, nat))
    requires pos <= |data|
    ensures pos <= r.1 <= |data|
    ensures pos < |data| && data[pos] == EQUALS ==> pos < r.1
  {
    if pos < |data| && data[pos] == EQUALS then
      if pos + 1 < |data| && data[pos + 1] == QUOTE then QuotedValue(data, pos + 2)
      else (data[pos + 1..PlainEnd(data, pos + 1)], PlainEnd(data, pos + 1))
    else ([], pos)
  }

  function SkipComma(data: bytes, pos: nat): (r: nat)
    requires pos <= |data|
    ensures pos <= r <= |data|
  {
    if pos < |data| && data[pos] == COMMA then pos + 1 else pos
  }

  /** The attributes from a position on.  Every round makes progress: a name that is empty is
  followed by an equals sign. */
  function AttributesFrom(data: bytes, pos: nat): seq<Attribute>
    requires pos <= |data|
    decreases |data| - pos
  {
    var start := SkipSpace(data, pos);
    if start == |data| then []
    else
      var end := NameEnd(data, start);
      var (value, next) := ValueAt(data, end);
      assert start < next;
      [Attribute(data[start..end], value)] + AttributesFrom(data, SkipComma(data, next))
  }

  // ---------- the source's loops ----------

  lemma QuotedStep(data: bytes, pos: nat)
    requires pos <= |data|
    ensures pos == |data| ==> QuotedValue(data, pos) == ([], pos)
    ensures pos < |data| && data[pos] == QUOTE ==> QuotedValue(data, pos) == ([], pos + 1)
    ensures pos < |data| && data[pos] != QUOTE ==>
      var at := if data[pos] == BACKSLASH && pos + 1 < |data| then pos + 1 else pos;
      var rest := QuotedValue(data, at + 1);
      QuotedValue(data, pos) == ([data[at]] + rest.0, rest.1)
  {
  }

  /** The loop over a quoted value. */
  method ReadQuoted(data: bytes, start: nat) returns (value: bytes, pos: nat)
    requires start < |data|
    ensures (value, pos) == QuotedValue(data, start + 1)
  {
    hide QuotedValue;
    value, pos := [], start + 1;
    while pos < |data|
      invariant start < pos <= |data|
      invariant QuotedValue(data, start + 1).0 == value + QuotedValue(data, pos).0
      invariant QuotedValue(data, start + 1).1 == QuotedValue(data, pos).1
      decreases |data| - pos
    {
      QuotedStep(data, pos);
      ghost var before := value;
      if data[pos] == QUOTE {
        assert value + [] == value;
        return value, pos + 1;
      }
      if data[pos] == BACKSLASH && pos + 1 < |data| {
        pos := pos + 1;
      }
      value := value + [data[pos]];
      pos := pos + 1;
      assert before + ([data[pos - 1]] + QuotedValue(data, pos).0) == value + QuotedValue(data, pos).0;
    }
    QuotedStep(data, pos);
    assert value + [] == value;
  }

  method ReadPlain(data: bytes, start: nat) returns (value: bytes, pos: nat)
    requires start <= |data|
    ensures pos == PlainEnd(data, start) && value == data[start..pos]
  {
    value, pos := [], start;
    while pos < |data| && !IsSpace(data[pos]) && data[pos] != COMMA
      invariant start <= pos <= |data| && value == data[start..pos]
      invariant PlainEnd(data, pos) == PlainEnd(data, start)
    {
      value := value + [data[pos]];
      pos := pos + 1;
    }
  }

  method SkipSpaces(data: bytes, from: nat) returns (pos: nat)
    requires from <= |data|
    ensures pos == SkipSpace(data, from)
  {
    pos := from;
    while pos < |data| && IsSpace(data[pos])
      invariant from <= pos <= |data| && SkipSpace(data, pos) == SkipSpace(data, from)
    {
      pos := pos + 1;
    }
  }

  method FindNameEnd(data: bytes, start: nat) returns (pos: nat)
    requires start <= |data|
    ensures pos == NameEnd(data, start)
  {
    pos := start;
    while !IsEndOfAttributeName(pos, data)
      invariant start <= pos <= |data| && NameEnd(data, pos) == NameEnd(data, start)
      decreases |data| - pos
    {
      pos := pos + 1;
    }
  }

  method ReadValue(data: bytes, end: nat) returns (value: bytes, pos: nat)
    requires end <= |data|
    ensures (value, pos) == ValueAt(data, end)
  {
    hide QuotedValue, PlainEnd;
    value, pos := [], end;
    if pos < |data| && data[pos] == EQUALS {
      pos := pos + 1;
      if pos < |data| && data[pos] == QUOTE {
        value, pos := ReadQuoted(data, pos);
      } else {
        value, pos := ReadPlain(data, pos);
      }
    }
  }

  lemma AttributesStep(data: bytes, pos: nat)
    requires pos <= |data|
    ensures var start := SkipSpace(data, pos);
      if start == |data| then AttributesFrom(data, pos) == []
      else
        var end := NameEnd(data, start);
        var (value, next) := ValueAt(data, end);
        && start < next
        && AttributesFrom(data, pos)
           == [Attribute(data[start..end], value)] + AttributesFrom(data, SkipComma(data, next))
  {
    hide SkipSpace, ValueAt, SkipComma;
  }

  /** `HttpParseAttributes`. */
  method ParseAttributes(data: bytes) returns (attributes: seq<Attribute>)
    ensures attributes == AttributesFrom(data, 0)
  {
    hide SkipSpace, NameEnd, ValueAt, AttributesFrom, IsEndOfAttributeName;
    attributes := [];
    var pos := 0;
    while true
      invariant pos <= |data| && attributes + AttributesFrom(data, pos) == AttributesFrom(data, 0)
      decreases |data| - pos
    {
      AttributesStep(data, pos);
      ghost var before := attributes;
      pos := SkipSpaces(data, pos);
      if pos >= |data| {
        assert attributes + [] == attributes;
        return;
      }
      var start := pos;
      pos := FindNameEnd(data, start);
      var name, value := data[start..pos], [];
      value, pos := ReadValue(data, pos);
      attributes := attributes + [Attribute(name, value)];
      if pos < |data| && data[pos] == COMMA {
        pos := pos + 1;
      }
      assert before + ([Attribute(name, value)] + AttributesFrom(data, pos)) == attributes + AttributesFrom(data, pos);
    }
  }

  // ---------- quoting ----------

  predicate NeedsEscape(b: byte) {
    b == QUOTE || b == BACKSLASH
  }

  function Escaped(s: bytes): bytes {
    if s == [] then []
    else (if NeedsEscape(s[0]) then [BACKSLASH, s[0]] else [s[0]]) + Escaped(s[1..])
  }

  function Quoted(s: bytes): bytes {
    [QUOTE] + Escaped(s) + [QUOTE]
  }

  /** `quote`. */
  method Quote(s: bytes) returns (result: bytes)
    ensures result == Quoted(s)
  {
    result := [QUOTE];
    var i := 0;
    assert s[0..] == s;
    while i < |s|
      invariant i <= |s| && result + Escaped(s[i..]) == [QUOTE] + Escaped(s)
    {
      ghost var before, rest := result, s[i..];
      if NeedsEscape(s[i]) {
        result := result + [BACKSLASH];
      }
      result := result + [s[i]];
      i := i + 1;
      assert rest[1..] == s[i..];
      assert result + Escaped(s[i..]) == before + Escaped(rest);
    }
    assert s[i..] == [];
    result := result + [QUOTE];
  }

  /** An attribute and how its value is written. */
  datatype Item = Item(attribute: Attribute, quoted: bool)

  function Written(item: Item): bytes {
    if item.quoted then Quoted(item.attribute.value) else item.attribute.value
  }

  function Text(item: Item): bytes {
    item.attribute.name + [EQUALS] + Written(item)
  }

  /** A list of attributes as the digest response is written: name=value or name=quote(value), joined
  by ", ". */
  function Joined(items: seq<Item>): bytes {
    if items == [] then []
    else if |items| == 1 then Text(items[0])
    else Text(items[0]) + [COMMA, SPACE] + Joined(items[1..])
  }

  function AttributesOf(items: seq<Item>): (r: seq<Attribute>)
    ensures |r| == |items| && forall i :: 0 <= i < |items| ==> r[i] == items[i].attribute
  {
    seq(|items|, i requires 0 <= i < |items| => items[i].attribute)
  }

  // ---------- the round trip ----------

  /** A name without white space, with equals signs at its end only. */
  ghost predicate GoodName(name: bytes) {
    && (forall i :: 0 <= i < |name| ==> !IsSpace(name[i]))
    && (forall i :: 0 <= i < |name| - 1 ==> name[i] == EQUALS ==> name[i + 1] == EQUALS)
  }

  /** A value that needs no quotes. */
  ghost predicate PlainValue(value: bytes) {
    && value != [] && value[0] != QUOTE && value[0] != EQUALS
    && forall i :: 0 <= i < |value| ==> !IsSpace(value[i]) && value[i] != COMMA
  }

  ghost predicate GoodNames(items: seq<Item>) {
    forall i :: 0 <= i < |items| ==> GoodName(items[i].attribute.name)
  }

  ghost predicate PlainOrQuoted(items: seq<Item>) {
    forall i :: 0 <= i < |items| ==> items[i].quoted || PlainValue(items[i].attribute.value)
  }

  /** Whatever the input, the parser only finds such names. */
  lemma {:induction false} OnlyGoodNames(data: bytes, pos: nat)
    requires pos <= |data|
    ensures forall i :: 0 <= i < |AttributesFrom(data, pos)| ==> GoodName(AttributesFrom(data, pos)[i].name)
    decreases |data| - pos
  {
    var start := SkipSpace(data, pos);
    if start < |data| {
      var end := NameEnd(data, start);
      var (value, next) := ValueAt(data, end);
      NoEndInside(data, start, end);
      hide SkipSpace, NameEnd, ValueAt, GoodName;
      OnlyGoodNames(data, SkipComma(data, next));
    }
  }

  lemma NoEndInside(data: bytes, start: nat, end: nat)
    requires start <= end <= |data| && forall i :: start <= i < end ==> !IsEndOfAttributeName(i, data)
    ensures GoodName(data[start..end])
  {
    var name := data[start..end];
    forall i | 0 <= i < |name|
      ensures !IsSpace(name[i]) && (i < |name| - 1 && name[i] == EQUALS ==> name[i + 1] == EQUALS)
    {
      assert !IsEndOfAttributeName(start + i, data);
      assert i < |name| - 1 ==> !IsEndOfAttributeName(start + i + 1, data);
    }
  }

  /** A suffix of a suffix. */
  lemma Suffix(data: bytes, pos: nat, k: nat)
    requires pos + k <= |data|
    ensures data[pos..][k..] == data[pos + k..] && (pos + k < |data| ==> data[pos..][k] == data[pos + k])
  {
  }

  lemma {:induction false} QuotedReadsBack(data: bytes, pos: nat, value: bytes, rest: bytes)
    requires pos <= |data| && data[pos..] == Escaped(value) + [QUOTE] + rest
    ensures QuotedValue(data, pos) == (value, pos + |Escaped(value)| + 1)
    decreases |value|
  {
    if value == [] {
      assert data[pos] == data[pos..][0] == QUOTE;
    } else {
      var b, tail := value[0], value[1..];
      var n := if NeedsEscape(b) then 2 else 1;
      assert data[pos + n..] == data[pos..][n..] == Escaped(tail) + [QUOTE] + rest;
      assert data[pos] == data[pos..][0] && (n == 2 ==> data[pos + 1] == data[pos..][1] == b);
      QuotedReadsBack(data, pos + n, tail, rest);
      assert [b] + tail == value;
    }
  }

  /** A name ends at an equals sign with a value behind it. */
  lemma {:induction false} NameReadsBack(data: bytes, pos: nat, i: nat, name: bytes, rest: bytes)
    requires pos <= |data| && data[pos..] == name + [EQUALS] + rest && GoodName(name) && i <= |name|
    requires rest != [] && !IsSpace(rest[0]) && rest[0] != EQUALS
    ensures NameEnd(data, pos + i) == pos + |name|
    decreases |name| - i
  {
    assert data[pos + |name|] == data[pos..][|name|] == EQUALS;
    assert data[pos + |name| + 1] == data[pos..][|name| + 1] == rest[0];
    if i < |name| {
      assert data[pos + i] == data[pos..][i] == name[i];
      assert data[pos + i + 1] == data[pos..][i + 1];
      NameReadsBack(data, pos, i + 1, name, rest);
    }
  }

  lemma QuotedValueReadsBack(data: bytes, end: nat, value: bytes, rest: bytes)
    requires end <= |data| && data[end..] == [EQUALS] + (Quoted(value) + rest)
    ensures ValueAt(data, end) == (value, |data| - |rest|)
  {
    hide Escaped, QuotedValue;
    assert data[end..] == [EQUALS, QUOTE] + (Escaped(value) + [QUOTE] + rest);
    Suffix(data, end, 0);
    Suffix(data, end, 1);
    Suffix(data, end, 2);
    QuotedReadsBack(data, end + 2, value, rest);
  }

  lemma {:induction false} PlainReadsBack(data: bytes, pos: nat, i: nat, value: bytes, rest: bytes)
    requires pos <= |data| && data[pos..] == value + rest && i <= |value|
    requires forall k :: 0 <= k < |value| ==> !IsSpace(value[k]) && value[k] != COMMA
    requires rest != [] ==> rest[0] == COMMA || IsSpace(rest[0])
    ensures PlainEnd(data, pos + i) == pos + |value|
    decreases |value| - i
  {
    if i < |value| {
      assert data[pos + i] == data[pos..][i] == value[i];
      PlainReadsBack(data, pos, i + 1, value, rest);
    } else if rest != [] {
      assert data[pos + |value|] == data[pos..][|value|] == rest[0];
    }
  }

  lemma PlainValueReadsBack(data: bytes, end: nat, value: bytes, rest: bytes)
    requires end <= |data| && data[end..] == [EQUALS] + (value + rest) && PlainValue(value)
    requires rest != [] ==> rest[0] == COMMA || IsSpace(rest[0])
    ensures ValueAt(data, end) == (value, |data| - |rest|)
  {
    hide PlainEnd, QuotedValue, IsSpace;
    Suffix(data, end, 0);
    Suffix(data, end, 1);
    var tail := data[end..];
    assert tail[0] == EQUALS && tail[1..] == value + rest && tail[1] == value[0];
    PlainReadsBack(data, end + 1, 0, value, rest);
    assert data[end + 1..end + 1 + |value|] == data[end + 1..][..|value|] == value;
  }

  lemma NameAt(data: bytes, pos: nat, name: bytes, value: bytes)
    requires pos <= |data| && data[pos..] == name + [EQUALS] + value && GoodName(name)
    requires value != [] && !IsSpace(value[0]) && value[0] != EQUALS
    ensures SkipSpace(data, pos) == pos < |data| && NameEnd(data, pos) == pos + |name|
    ensures data[pos..pos + |name|] == name && data[pos + |name|..] == [EQUALS] + value
  {
    assert name != [] ==> !IsSpace(name[0]);
    hide NameEnd, GoodName, IsEndOfAttributeName;
    NameReadsBack(data, pos, 0, name, value);
    var tail := data[pos..];
    assert tail[..|name|] == name && tail[|name|..] == [EQUALS] + value && !IsSpace(tail[0]);
    Suffix(data, pos, |name|);
    Suffix(data, pos, 0);
  }

  lemma TextIs(item: Item, rest: bytes)
    requires item.quoted || PlainValue(item.attribute.value)
    ensures Text(item) + rest == item.attribute.name + [EQUALS] + (Written(item) + rest)
    ensures var value := Written(item) + rest;
      value != [] && !IsSpace(value[0]) && value[0] != EQUALS
  {
    hide Escaped;
  }

  lemma WrittenReadsBack(data: bytes, end: nat, item: Item, rest: bytes)
    requires end <= |data| && data[end..] == [EQUALS] + (Written(item) + rest)
    requires item.quoted || PlainValue(item.attribute.value)
    requires rest != [] ==> rest[0] == COMMA || IsSpace(rest[0])
    ensures ValueAt(data, end) == (item.attribute.value, |data| - |rest|)
  {
    hide Quoted, PlainValue, ValueAt;
    if item.quoted {
      QuotedValueReadsBack(data, end, item.attribute.value, rest);
    } else {
      PlainValueReadsBack(data, end, item.attribute.value, rest);
    }
  }

  /** One attribute at `pos`. */
  lemma ItemReadsBack(data: bytes, pos: nat, item: Item, rest: bytes)
    requires pos <= |data| && data[pos..] == Text(item) + rest && GoodName(item.attribute.name)
    requires item.quoted || PlainValue(item.attribute.value)
    requires rest != [] ==> rest[0] == COMMA || IsSpace(rest[0])
    ensures var a := item.attribute;
      && SkipSpace(data, pos) == pos < |data| && NameEnd(data, pos) == pos + |a.name|
      && ValueAt(data, pos + |a.name|) == (a.value, |data| - |rest|)
      && data[pos..pos + |a.name|] == a.name
  {
    hide Text, Written, PlainValue, NameEnd, ValueAt, GoodName, SkipSpace;
    TextIs(item, rest);
    NameAt(data, pos, item.attribute.name, Written(item) + rest);
    WrittenReadsBack(data, pos + |item.attribute.name|, item, rest);
  }

  lemma {:induction false} AllReadBack(data: bytes, pos: nat, items: seq<Item>)
    requires pos <= |data| && data[pos..] == Joined(items)
    requires GoodNames(items) && PlainOrQuoted(items)
    ensures AttributesFrom(data, pos) == AttributesOf(items)
    decreases |items|
  {
    hide Text, NameEnd, ValueAt, GoodName, PlainValue, AttributesFrom, SkipSpace;
    AttributesStep(data, pos);
    if items == [] {
      assert SkipSpace(data, pos) == pos == |data|;
    } else {
      var first, others := items[0], items[1..];
      if |items| == 1 {
        assert data[pos..] == Text(first) + [];
        ItemReadsBack(data, pos, first, []);
        AttributesStep(data, |data|);
        assert [first.attribute] + [] == AttributesOf(items);
      } else {
        var tail := Joined(others);
        assert data[pos..] == Text(first) + ([COMMA, SPACE] + tail);
        hide Joined;
        ItemReadsBack(data, pos, first, [COMMA, SPACE] + tail);
        var next := |data| - |tail| - 2;
        SeparatorAt(data, pos, next, tail, Text(first));
        AllReadBack(data, next + 2, others);
        BlankSkipped(data, next + 1);
        assert [first.attribute] + AttributesOf(others) == AttributesOf(items);
      }
    }
  }

  lemma SeparatorAt(data: bytes, pos: nat, next: nat, tail: bytes, first: bytes)
    requires pos <= |data| && data[pos..] == first + ([COMMA, SPACE] + tail)
    requires next == |data| - |tail| - 2
    ensures data[next] == COMMA && data[next + 1] == SPACE && data[next + 2..] == tail
  {
    var k := |first|;
    Suffix(data, pos, k);
    Suffix(data, pos, k + 1);
    Suffix(data, pos, k + 2);
  }

  lemma BlankSkipped(data: bytes, pos: nat)
    requires pos < |data| && IsSpace(data[pos])
    ensures AttributesFrom(data, pos) == AttributesFrom(data, pos + 1)
  {
  }

  /** The round trip: arbitrary values come back in quotes, plain ones without, and the list comes back
  exactly if its names have no white space and no equals signs but at their ends. */
  lemma RoundTrip(items: seq<Item>)
    requires PlainOrQuoted(items)
    ensures AttributesFrom(Joined(items), 0) == AttributesOf(items) <==> GoodNames(items)
  {
    var data := Joined(items);
    if GoodNames(items) {
      assert data[0..] == data;
      AllReadBack(data, 0, items);
    } else if AttributesFrom(data, 0) == AttributesOf(items) {
      OnlyGoodNames(data, 0);
    }
  }

  // ---------- challenges ----------

  /** A challenge: a method and its attributes. */
  function Challenge(method_: bytes, items: seq<Item>): bytes {
    method_ + [SPACE] + Joined(items)
  }

  lemma {:induction false} MethodEnds(data: bytes, i: nat, method_: bytes, rest: bytes)
    requires data == method_ + [SPACE] + rest && GoodName(method_) && i <= |method_|
    ensures NameEnd(data, i) == |method_|
    decreases |method_| - i
  {
    assert data[|method_|] == SPACE;
    if i < |method_| {
      assert data[i] == method_[i] && (i + 1 < |method_| ==> data[i + 1] == method_[i + 1]);
      MethodEnds(data, i + 1, method_, rest);
    }
  }

  /** A challenge is read as a name without value, and then its attributes. */
  lemma ChallengeReadsBack(method_: bytes, items: seq<Item>)
    requires PlainOrQuoted(items) && GoodNames(items) && GoodName(method_) && method_ != []
    ensures AttributesFrom(Challenge(method_, items), 0) == [Attribute(method_, [])] + AttributesOf(items)
  {
    var data := Challenge(method_, items);
    var n := |method_|;
    MethodEnds(data, 0, method_, Joined(items));
    assert data[0] == method_[0] && data[n] == SPACE && data[0..n] == method_;
    assert data[n + 1..] == Joined(items);
    hide Joined, NameEnd, GoodNames, PlainOrQuoted, AttributesFrom;
    AttributesStep(data, 0);
    BlankSkipped(data, n);
    AllReadBack(data, n + 1, items);
  }
}
