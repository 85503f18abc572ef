/** What the lines of an HTTP message mean, in the terms of the protocol: spelled-out numbers, names in
any case, and the lines that are refused (sections 3.2, 3.3 and 4.1 of RFC 7230). */
module HttpLaws {
  import opened Bytes
  import opened HttpWire
  import opened HttpEncode

  // ---------- numerals ----------

  const DIGITS: string := "0123456789abcdef"
  const CAPITALS: string := "0123456789ABCDEF"

  /** `s` spells these digits, a letter in either case. */
  ghost predicate Spells(s: bytes, ds: seq<nat>, radix: nat)
    requires radix <= 16
  {
    && |s| == |ds|
    && forall i :: 0 <= i < |s| ==> ds[i] < radix && (s[i] == DIGITS[ds[i]] as int || s[i] == CAPITALS[ds[i]] as int)
  }

  function Number(ds: seq<nat>, radix: nat): nat {
    if ds == [] then 0 else Number(ds[..|ds| - 1], radix) * radix + ds[|ds| - 1]
  }

  function DecimalDigits(n: nat): seq<nat> {
    (if n < 10 then [] else DecimalDigits(n / 10)) + [n % 10]
  }

  /** `%u`. */
  function Decimal(n: nat): bytes {
    (if n < 10 then [] else Decimal(n / 10)) + Ascii([DIGITS[n % 10]])
  }

  lemma {:induction false} DecimalSpells(n: nat)
    ensures Spells(Decimal(n), DecimalDigits(n), 10) && Number(DecimalDigits(n), 10) == n
    ensures Decimal(n) != []
  {
    if n >= 10 {
      DecimalSpells(n / 10);
      NumberSnoc(DecimalDigits(n / 10), n % 10, 10);
    } else {
      NumberSnoc([], n, 10);
    }
    hide Number;
  }

  lemma NumberSnoc(ds: seq<nat>, d: nat, radix: nat)
    ensures Number(ds + [d], radix) == Number(ds, radix) * radix + d
  {
    assert (ds + [d])[..|ds|] == ds;
  }

  lemma DigitMeans(b: byte, d: nat)
    requires d < 16 && (b == DIGITS[d] as int || b == CAPITALS[d] as int)
    ensures DigitValue(b) == d && !IsSpace(b) && b != 45 && b != 43 && b != 120 && b != 88 && b != LF && b != 0
  {
  }

  /** A byte below `radix` by its value is one of the first `radix` digits. */
  lemma DigitIs(b: byte, radix: nat)
    requires radix <= 16 && IsDigit(b, radix)
    ensures exists d: nat :: d < radix && (b == DIGITS[d] as int || b == CAPITALS[d] as int)
  {
    var d := DigitValue(b);
    assert d < radix && (b == DIGITS[d] as int || b == CAPITALS[d] as int);
  }

  lemma {:induction false} NumberIs(s: bytes, ds: seq<nat>, radix: nat)
    requires radix <= 16 && Spells(s, ds, radix)
    ensures DigitsValue(s, radix) == Number(ds, radix)
    ensures forall i :: 0 <= i < |s| ==> IsDigit(s[i], radix)
  {
    if s != [] {
      var n := |s| - 1;
      LastDigit(s, ds, radix);
      assert |ds| == |s|;
      hide DigitValue, Spells, IsDigit;
      NumberIs(s[..n], ds[..n], radix);
      Unrolled(s, ds, radix);
    }
  }

  lemma Unrolled(s: bytes, ds: seq<nat>, radix: nat)
    requires s != [] && |s| == |ds|
    ensures var n := |s| - 1;
      && DigitsValue(s, radix) == DigitsValue(s[..n], radix) * radix + DigitValue(s[n])
      && Number(ds, radix) == Number(ds[..n], radix) * radix + ds[n]
      && forall i :: 0 <= i < n ==> s[..n][i] == s[i]
  {
    hide DigitValue;
  }

  lemma LastDigit(s: bytes, ds: seq<nat>, radix: nat)
    requires radix <= 16 && Spells(s, ds, radix) && s != []
    ensures var n := |s| - 1;
      IsDigit(s[n], radix) && DigitValue(s[n]) == ds[n] && Spells(s[..n], ds[..n], radix)
  {
    DigitMeans(s[|s| - 1], ds[|s| - 1]);
    hide DigitValue;
  }

  lemma {:induction false} DigitsStop(s: bytes, i: nat, n: nat, radix: nat)
    requires i <= n <= |s| && (forall k :: i <= k < n ==> IsDigit(s[k], radix))
    requires n < |s| ==> !IsDigit(s[n], radix)
    ensures DigitsEnd(s, i, radix) == n
    decreases n - i
  {
    if i < n {
      DigitsStop(s, i + 1, n, radix);
    }
  }

  lemma NumeralIsPlain(s: bytes, ds: seq<nat>, radix: nat)
    requires radix <= 16 && s != [] && Spells(s, ds, radix)
    ensures !IsSpace(s[0]) && s[0] != 45 && s[0] != 43 && (|s| > 1 ==> Lower(s[1]) != 120)
  {
    DigitMeans(s[0], ds[0]);
    if |s| > 1 {
      DigitMeans(s[1], ds[1]);
    }
  }

  /** A decimal numeral is read as its number, however it goes on, up to the largest `unsigned long`. */
  lemma StrtoulOfDecimal(s: bytes, ds: seq<nat>, rest: bytes)
    requires s != [] && Spells(s, ds, 10) && (rest != [] ==> !(48 <= rest[0] <= 57))
    ensures var n := Number(ds, 10);
      Strtoul(s + rest, 10) == (if n > 0xFFFF_FFFF_FFFF_FFFF then 0xFFFF_FFFF_FFFF_FFFF else n, |s|)
  {
    assert rest != [] ==> !IsDigit(rest[0], 10);
    hide Spells, Number, DigitsValue, DigitsEnd, IsDigit, IsSpace, Lower, Strtoul;
    NumeralIsPlain(s, ds, 10);
    NumberIs(s, ds, 10);
    NumeralEnds(s, rest);
    StrtoulPlain(s + rest, 10, |s|);
  }

  lemma NumeralEnds(s: bytes, rest: bytes)
    requires (forall k :: 0 <= k < |s| ==> IsDigit(s[k], 10)) && (rest != [] ==> !IsDigit(rest[0], 10))
    ensures DigitsEnd(s + rest, 0, 10) == |s| && (s + rest)[0..|s|] == s && (s != [] ==> (s + rest)[0] == s[0])
  {
    hide IsDigit, DigitsEnd;
    DigitsStop(s + rest, 0, |s|, 10);
  }

  /** A hexadecimal numeral, in upper or lower case, is read as its number. */
  lemma StrtoulOfHexadecimal(s: bytes, ds: seq<nat>)
    requires s != [] && Spells(s, ds, 16)
    ensures var n := Number(ds, 16);
      Strtoul(s, 16) == (if n > 0xFFFF_FFFF_FFFF_FFFF then 0xFFFF_FFFF_FFFF_FFFF else n, |s|)
  {
    hide Spells, Number, DigitsValue, DigitsEnd, IsDigit, IsSpace, Lower, Strtoul;
    NumeralIsPlain(s, ds, 16);
    NumberIs(s, ds, 16);
    AllDigits(s, 16);
    StrtoulPlain(s, 16, |s|);
  }

  lemma DecimalReadsBack(n: nat)
    requires n <= 0xFFFF_FFFF_FFFF_FFFF
    ensures Strtoul(Decimal(n), 10) == (n, |Decimal(n)|)
  {
    hide Strtoul, Spells, Number;
    DecimalSpells(n);
    StrtoulOfDecimal(Decimal(n), DecimalDigits(n), []);
    assert Decimal(n) + [] == Decimal(n);
  }

  /** The digits of a chunk size are lower-case hexadecimal. */
  lemma HexDigitIs(d: nat)
    requires d < 16
    ensures HexDigit(d) == DIGITS[d] as int
  {
  }

  // ---------- header lines ----------

  /** Blanks and tabs. */
  ghost predicate Blanks(s: bytes) {
    forall i :: 0 <= i < |s| ==> s[i] == 32 || s[i] == 9
  }

  lemma TrimOne(b: byte, s: bytes)
    requires IsSpace(b)
    ensures TrimLeft([b] + s) == TrimLeft(s)
  {
    assert ([b] + s)[1..] == s;
  }

  lemma FirstAndRest(s: bytes, rest: bytes)
    requires s != []
    ensures s + rest == [s[0]] + (s[1..] + rest)
  {
  }

  lemma {:induction false} BlanksTrimmed(blanks: bytes, value: bytes)
    requires Blanks(blanks) && (value != [] ==> !IsSpace(value[0]))
    ensures TrimLeft(blanks + value) == value
  {
    if blanks == [] {
      assert blanks + value == value;
    } else {
      assert Blanks(blanks[1..]) && IsSpace(blanks[0]);
      hide Blanks, TrimLeft, IsSpace;
      BlanksTrimmed(blanks[1..], value);
      TrimOne(blanks[0], blanks[1..] + value);
      FirstAndRest(blanks, value);
    }
  }

  /** A header line as it is fed: the name, a colon, the value among blanks, and CR LF. */
  function Line(h: Header, before: bytes, after: bytes): bytes {
    h.name + Ascii(":") + before + h.value + after + Ascii("\r\n")
  }

  /** The line without its line end and what blanks precede that. */
  function Text(h: Header, before: bytes): bytes {
    h.name + [COLON] + if h.value == [] then [] else before + h.value
  }

  function Raw(h: Header, before: bytes, after: bytes): bytes {
    h.name + [COLON] + before + h.value + after + [CR]
  }

  lemma RawIsTextAndSpaces(h: Header, before: bytes, after: bytes)
    ensures Raw(h, before, after)
            == Text(h, before) + (if h.value == [] then before + after + [CR] else after + [CR])
    ensures Line(h, before, after) == Raw(h, before, after) + [LF]
  {
    assert Ascii(":") == [COLON] && Ascii("\r\n") == [CR, LF];
    hide Ascii;
    if h.value == [] {
      assert before + [] + after == before + after;
    }
  }

  lemma TextEnds(h: Header, before: bytes)
    requires Clean(h)
    ensures var text := Text(h, before); text != [] && !IsSpace(text[|text| - 1])
  {
  }

  lemma NoNewline(h: Header, before: bytes, after: bytes)
    requires Clean(h) && Blanks(before) && Blanks(after)
    ensures LF !in Raw(h, before, after)
  {
    assert LF !in before && LF !in after;
    hide Blanks;
  }

  lemma LineTrimmed(h: Header, before: bytes, after: bytes)
    requires Clean(h) && Blanks(before) && Blanks(after)
    ensures TrimRight(Raw(h, before, after)) == Text(h, before)
  {
    var spaces := if h.value == [] then before + after + [CR] else after + [CR];
    assert forall k :: 0 <= k < |spaces| ==> IsSpace(spaces[k]);
    hide Blanks, Text, Raw, Line, Clean, IsSpace, TrimRight;
    TextEnds(h, before);
    RawIsTextAndSpaces(h, before, after);
    TrimRightOfSpaces(Text(h, before), spaces);
  }

  lemma LineSplits(h: Header, before: bytes)
    requires Clean(h) && Blanks(before)
    ensures SplitHeader(Text(h, before)) == Some(h)
  {
    hide FindColon, TrimLeft;
    var rest := if h.value == [] then [] else before + h.value;
    var text := h.name + [COLON] + rest;
    FindColonAfter(h.name, rest, 0);
    assert text[..|h.name|] == h.name && text[|h.name| + 1..] == rest;
    BlanksTrimmed(if h.value == [] then [] else before, h.value);
    assert h.value == [] ==> [] + h.value == rest;
  }

  /** A header comes through with the blanks around its value dropped, and has its effect. */
  lemma HeaderLineMeans(cb: Callbacks, m: Machine, taken: nat, h: Header, before: bytes, after: bytes)
    requires m.fields.state == StHeaders && Clean(h) && Blanks(before) && Blanks(after)
    ensures var line := Line(h, before, after);
      Feed(cb, At(m, taken), line)
      == match HeaderEffect(m.fields, h)
         case None => Parse(m, [], taken + |line|, Some(HE_PROTOCOL))
         case Some(f) => At(m.(fields := f, headers := m.headers + [h]), taken + |line|)
  {
    hide Feed, HeaderEffect, Blanks, Line, Raw, Text, TrimRight, SplitHeader, Clean;
    RawIsTextAndSpaces(h, before, after);
    NoNewline(h, before, after);
    LineTrimmed(h, before, after);
    TextEnds(h, before);
    LineSplits(h, before);
    FeedLine(cb, m, taken, Raw(h, before, after));
  }

  /** A length is announced by a decimal numeral, and kept as 32 bits; what follows it is ignored. */
  lemma LengthAnnounced(cb: Callbacks, m: Machine, taken: nat, h: Header, before: bytes, after: bytes,
                        ds: seq<nat>, numeral: bytes, rest: bytes)
    requires m.fields.state == StHeaders && Clean(h) && Blanks(before) && Blanks(after)
    requires SameButCase(h.name, Ascii("Content-Length"))
    requires h.value == numeral + rest && numeral != [] && Spells(numeral, ds, 10)
    requires Number(ds, 10) <= 0xFFFF_FFFF_FFFF_FFFF && (rest != [] ==> !(48 <= rest[0] <= 57))
    ensures var line := Line(h, before, after);
      Feed(cb, At(m, taken), line)
      == At(m.(fields := m.fields.(dataSize := Number(ds, 10) % 0x1_0000_0000), headers := m.headers + [h]),
            taken + |line|)
  {
    EqualsIgnoreCaseMeans(h.name, CONTENT_LENGTH);
    StrtoulOfDecimal(numeral, ds, rest);
    hide Feed, Strtoul, Spells, Number, SameButCase, EqualsIgnoreCase, Line, Clean;
    HeaderLineMeans(cb, m, taken, h, before, after);
  }

  lemma StrtoulOfNothing(s: bytes)
    requires s != [] ==> !IsSpace(s[0]) && !(48 <= s[0] <= 57) && s[0] != 43 && s[0] != 45
    ensures Strtoul(s, 10) == (0, 0)
  {
    assert DigitsEnd(s, 0, 10) == 0;
    hide Strtoul, DigitsValue, IsSpace;
    StrtoulPlain(s, 10, 0);
  }

  /** A length that does not begin with a digit or a sign is refused. */
  lemma LengthMissing(cb: Callbacks, m: Machine, taken: nat, h: Header, before: bytes, after: bytes)
    requires m.fields.state == StHeaders && Clean(h) && Blanks(before) && Blanks(after)
    requires SameButCase(h.name, Ascii("Content-Length"))
    requires h.value != [] ==> !(48 <= h.value[0] <= 57) && h.value[0] != 43 && h.value[0] != 45
    ensures Feed(cb, At(m, taken), Line(h, before, after))
            == Parse(m, [], taken + |Line(h, before, after)|, Some(HE_PROTOCOL))
  {
    EqualsIgnoreCaseMeans(h.name, CONTENT_LENGTH);
    StrtoulOfNothing(h.value);
    hide Feed, Strtoul, SameButCase, EqualsIgnoreCase, Line, Clean, Ascii, Blanks;
    HeaderLineMeans(cb, m, taken, h, before, after);
  }

  lemma {:induction false} DecimalClean(n: nat)
    ensures forall i :: 0 <= i < |Decimal(n)| ==> 48 <= Decimal(n)[i] <= 57
  {
    if n >= 10 {
      DecimalClean(n / 10);
    }
  }

  lemma LetterIs(a: bytes, b: bytes, i: nat)
    requires SameButCase(a, b) && i < |a|
    ensures !(65 <= b[i] <= 90) && !(97 <= b[i] <= 122) ==> a[i] == b[i]
    ensures (65 <= b[i] <= 90) || (97 <= b[i] <= 122) ==> a[i] > COLON
  {
  }

  /** A name in another case is as clean as the name. */
  lemma NameClean(name: bytes, proper: bytes)
    requires SameButCase(name, proper)
    requires forall i :: 0 <= i < |proper| ==>
      proper[i] == 45 || (65 <= proper[i] <= 90) || (97 <= proper[i] <= 122)
    ensures COLON !in name && LF !in name && 0 !in name
  {
    forall i | 0 <= i < |name|
      ensures name[i] != COLON && name[i] != LF && name[i] != 0
    {
      LetterIs(name, proper, i);
    }
  }

  /** The header `Content-Length: n`, its name in any case, announces n bytes and nothing else. */
  lemma LengthReadsBack(cb: Callbacks, m: Machine, taken: nat, name: bytes, n: nat)
    requires m.fields.state == StHeaders && n < 0x1_0000_0000
    requires SameButCase(name, Ascii("Content-Length"))
    ensures var line := name + Ascii(": ") + Decimal(n) + Ascii("\r\n");
      Feed(cb, At(m, taken), line)
      == At(m.(fields := m.fields.(dataSize := n), headers := m.headers + [Header(name, Decimal(n))]),
            taken + |line|)
  {
    hide Feed, Decimal, DecimalDigits, Number, Spells, SameButCase, Line, Clean, Ascii;
    LengthHeaderClean(name, n);
    DecimalSpells(n);
    OneBlank(Header(name, Decimal(n)));
    assert Decimal(n) + [] == Decimal(n);
    LengthAnnounced(cb, m, taken, Header(name, Decimal(n)), [32], [], DecimalDigits(n), Decimal(n), []);
  }

  lemma OneBlank(h: Header)
    ensures Line(h, [32], []) == h.name + Ascii(": ") + h.value + Ascii("\r\n")
    ensures Blanks([32]) && Blanks([])
  {
    assert Ascii(": ") == Ascii(":") + [32];
    hide Ascii;
    var end := Ascii("\r\n");
    assert h.name + Ascii(":") + [32] + h.value + [] + end == h.name + (Ascii(":") + [32]) + h.value + end;
  }

  lemma LengthHeaderClean(name: bytes, n: nat)
    requires SameButCase(name, Ascii("Content-Length"))
    ensures Clean(Header(name, Decimal(n)))
  {
    NameClean(name, Ascii("Content-Length"));
    DecimalClean(n);
    hide Decimal, SameButCase;
  }

  /** A transfer coding, in any case, says whether chunks follow; any other coding is refused. */
  lemma CodingMeans(cb: Callbacks, m: Machine, taken: nat, h: Header, before: bytes, after: bytes)
    requires m.fields.state == StHeaders && Clean(h) && Blanks(before) && Blanks(after)
    requires SameButCase(h.name, Ascii("Transfer-Encoding"))
    ensures var w, n := Feed(cb, At(m, taken), Line(h, before, after)), taken + |Line(h, before, after)|;
      if SameButCase(h.value, Ascii("chunked")) then
        w == At(m.(fields := m.fields.(chunked := true), headers := m.headers + [h]), n)
      else if SameButCase(h.value, Ascii("identity")) then
        w == At(m.(fields := m.fields.(chunked := false), headers := m.headers + [h]), n)
      else w == Parse(m, [], n, Some(HE_PROTOCOL))
  {
    EqualsIgnoreCaseMeans(h.name, CONTENT_LENGTH);
    EqualsIgnoreCaseMeans(h.name, TRANSFER_ENCODING);
    EqualsIgnoreCaseMeans(h.value, CHUNKED);
    EqualsIgnoreCaseMeans(h.value, IDENTITY);
    assert |CONTENT_LENGTH| == 14 && |TRANSFER_ENCODING| == 17;
    assert !SameButCase(h.name, CONTENT_LENGTH);
    hide Feed, Strtoul, SameButCase, EqualsIgnoreCase, Line, Clean;
    HeaderLineMeans(cb, m, taken, h, before, after);
  }

  /** No other header changes how the body is read. */
  lemma OtherHeaders(cb: Callbacks, m: Machine, taken: nat, h: Header, before: bytes, after: bytes)
    requires m.fields.state == StHeaders && Clean(h) && Blanks(before) && Blanks(after)
    requires !SameButCase(h.name, Ascii("Content-Length")) && !SameButCase(h.name, Ascii("Transfer-Encoding"))
    ensures Feed(cb, At(m, taken), Line(h, before, after))
            == At(m.(headers := m.headers + [h]), taken + |Line(h, before, after)|)
  {
    EqualsIgnoreCaseMeans(h.name, CONTENT_LENGTH);
    EqualsIgnoreCaseMeans(h.name, TRANSFER_ENCODING);
    hide Feed, Strtoul, SameButCase, EqualsIgnoreCase, Line, Clean;
    HeaderLineMeans(cb, m, taken, h, before, after);
  }

  // ---------- lines that are refused ----------

  /** A line without its end: no newline, and no white space where it ends. */
  ghost predicate BareLine(line: bytes) {
    LF !in line && (line != [] ==> !IsSpace(line[|line| - 1]))
  }

  lemma FeedBare(cb: Callbacks, m: Machine, taken: nat, line: bytes)
    requires m.fields.state != StData && BareLine(line)
    ensures var r := LineStep(cb, m, line);
      Feed(cb, At(m, taken), line + Ascii("\r\n")) == Settle(Parse(r.m, [], taken + |line| + 2, r.status))
  {
    hide LineStep, Feed;
    assert Ascii("\r\n") == CRLF;
    FeedCrLf(cb, m, taken, line);
  }

  lemma {:induction false} NoColon(line: bytes, i: nat)
    requires COLON !in line && i <= |line|
    ensures FindColon(line, i) == None
    decreases |line| - i
  {
    if i < |line| {
      NoColon(line, i + 1);
    }
  }

  /** A header line without a colon ends the message. */
  lemma ColonMissing(cb: Callbacks, m: Machine, taken: nat, line: bytes)
    requires m.fields.state == StHeaders && BareLine(line) && line != [] && COLON !in line
    ensures Feed(cb, At(m, taken), line + Ascii("\r\n")) == Parse(m, [], taken + |line| + 2, Some(HE_PROTOCOL))
  {
    NoColon(line, 0);
    hide Feed, FindColon, Ascii, BareLine;
    FeedBare(cb, m, taken, line);
  }

  /** A chunk size is a hexadecimal numeral in either case; a chunk of size 0 is the last. */
  lemma ChunkSizeMeans(cb: Callbacks, m: Machine, taken: nat, line: bytes, ds: seq<nat>)
    requires m.fields.state == StChunkSize && m.fields.chunked && line != [] && Spells(line, ds, 16)
    requires Number(ds, 16) <= 0xFFFF_FFFF_FFFF_FFFF
    ensures var n := Number(ds, 16);
      Feed(cb, At(m, taken), line + Ascii("\r\n"))
      == At(m.(fields := Fields(if n == 0 then StTrailers else StData, true, n)), taken + |line| + 2)
  {
    hide Feed, Strtoul, Spells, Number, Ascii, BareLine;
    StrtoulOfHexadecimal(line, ds);
    SpelledIsBare(line, ds);
    FeedBare(cb, m, taken, line);
  }

  lemma SpelledIsBare(line: bytes, ds: seq<nat>)
    requires Spells(line, ds, 16)
    ensures BareLine(line)
  {
    forall i | 0 <= i < |line|
      ensures line[i] != LF && !IsSpace(line[i])
    {
      DigitMeans(line[i], ds[i]);
    }
  }

  ghost predicate EndsInHexDigit(line: bytes)
    requires line != []
  {
    exists d: nat :: d < 16 && (line[|line| - 1] == DIGITS[d] as int || line[|line| - 1] == CAPITALS[d] as int)
  }

  /** `strtoul` gets to the end of a string only if it ends in a digit. */
  lemma StrtoulStops(line: bytes)
    requires line != [] && Strtoul(line, 16).1 == |line|
    ensures EndsInHexDigit(line)
  {
    assert IsDigit(line[|line| - 1], 16) by {
      hide IsDigit, DigitsValue, TrimLeft;
    }
    hide Strtoul, IsDigit;
    DigitIs(line[|line| - 1], 16);
  }

  /** A line for a chunk size that is empty, or does not end in a hexadecimal digit (a chunk extension,
  say), ends the message. */
  lemma ChunkSizeRefused(cb: Callbacks, m: Machine, taken: nat, line: bytes)
    requires m.fields.state == StChunkSize && BareLine(line)
    requires line != [] ==> !EndsInHexDigit(line)
    ensures Feed(cb, At(m, taken), line + Ascii("\r\n")).status == Some(HE_PROTOCOL)
  {
    hide Feed, Strtoul, Ascii, BareLine, EndsInHexDigit;
    FeedBare(cb, m, taken, line);
    if line != [] && Strtoul(line, 16).1 == |line| {
      StrtoulStops(line);
      assert false;
    }
  }

  /** Behind the bytes of a chunk only a line end may come. */
  lemma ChunkEndRefused(cb: Callbacks, m: Machine, taken: nat, line: bytes)
    requires m.fields.state == StChunkTerm && BareLine(line) && line != []
    ensures Feed(cb, At(m, taken), line + Ascii("\r\n")) == Parse(m, [], taken + |line| + 2, Some(HE_PROTOCOL))
  {
    hide Feed, Ascii, BareLine;
    FeedBare(cb, m, taken, line);
  }

  function Lines(lines: seq<bytes>): bytes {
    if lines == [] then [] else Lines(lines[..|lines| - 1]) + lines[|lines| - 1] + Ascii("\r\n")
  }

  lemma {:induction false} TrailersSkipped(cb: Callbacks, m: Machine, taken: nat, lines: seq<bytes>)
    requires m.fields.state == StTrailers
    requires forall i :: 0 <= i < |lines| ==> BareLine(lines[i]) && lines[i] != []
    ensures Feed(cb, At(m, taken), Lines(lines)) == At(m, taken + |Lines(lines)|)
  {
    hide Feed, Ascii, BareLine;
    if lines == [] {
      FeedNothing(cb, At(m, taken));
    } else {
      var init, last := lines[..|lines| - 1], lines[|lines| - 1];
      TrailersSkipped(cb, m, taken, init);
      var end := Ascii("\r\n");
      FeedBare(cb, m, taken + |Lines(init)|, last);
      FeedAppend(cb, At(m, taken), Lines(init), last + end);
      Associative(Lines(init), last, end);
    }
  }

  /** Trailers are skipped, whatever they say, and the empty line behind them ends the message well. */
  lemma TrailersMean(cb: Callbacks, m: Machine, taken: nat, lines: seq<bytes>)
    requires m.fields.state == StTrailers
    requires forall i :: 0 <= i < |lines| ==> BareLine(lines[i]) && lines[i] != []
    ensures var wire := Lines(lines) + Ascii("\r\n");
      Feed(cb, At(m, taken), wire) == Parse(m, [], taken + |wire|, Some(HE_NONE))
  {
    hide Feed, Ascii, Lines;
    TrailersSkipped(cb, m, taken, lines);
    var end := Ascii("\r\n");
    assert [] + end == end;
    FeedBare(cb, m, taken + |Lines(lines)|, []);
    FeedAppend(cb, At(m, taken), Lines(lines), end);
  }

  /** The first line is what it is; a callback that refuses it, or the headers, ends the message with
  its error. */
  lemma LeaderMeans(cb: Callbacks, m: Machine, taken: nat, line: bytes)
    requires m.fields.state == StLeader && BareLine(line)
    ensures var w := Feed(cb, At(m, taken), line + Ascii("\r\n"));
      && w.m == m.(fields := Fields(StHeaders, m.fields.chunked, m.fields.dataSize), leader := Some(line))
      && w.taken == taken + |line| + 2
      && w.status == if cb.parseLeader(line) == HE_NONE then None else Some(cb.parseLeader(line))
  {
    hide Feed, Ascii, BareLine;
    FeedBare(cb, m, taken, line);
  }

  /** The empty line behind the headers: the callback may end the message or overrule the size; chunks
  follow if they were declared, and a body of that many bytes otherwise. */
  lemma HeadersEnd(cb: Callbacks, m: Machine, taken: nat)
    requires m.fields.state == StHeaders
    ensures var (e, size) := cb.onHeaderComplete(m.leader, m.headers, m.fields.chunked, m.fields.dataSize);
      var w := Feed(cb, At(m, taken), Ascii("\r\n"));
      && w.line == [] && w.taken == taken + 2
      && w.m == m.(fields := Fields(if m.fields.chunked then StChunkSize else StData, m.fields.chunked, size))
      && w.status == if e != HE_NONE then Some(e)
                     else if !m.fields.chunked && size == 0 then Some(HE_NONE) else None
  {
    hide Feed, Ascii;
    var end := Ascii("\r\n");
    assert [] + end == end;
    FeedBare(cb, m, taken, []);
  }

  lemma UnknownSizeStep(cb: Callbacks, m: Machine, taken: nat, b: byte)
    requires m.fields == Fields(StData, false, 0xFFFF_FFFF_FFFF_FFFF)
    ensures FeedByte(cb, At(m, taken), b) == At(m.(body := m.body + [b]), taken + 1)
  {
    hide AfterLine;
  }

  /** A body of unknown size goes on for as long as there are bytes. */
  lemma {:induction false} UnknownSize(cb: Callbacks, m: Machine, taken: nat, data: bytes)
    requires m.fields == Fields(StData, false, 0xFFFF_FFFF_FFFF_FFFF)
    ensures Feed(cb, At(m, taken), data) == At(m.(body := m.body + data), taken + |data|)
  {
    hide FeedByte;
    if data == [] {
      assert m.body + data == m.body;
    } else {
      var init, last := data[..|data| - 1], data[|data| - 1];
      UnknownSize(cb, m, taken, init);
      UnknownSizeStep(cb, m.(body := m.body + init), taken + |init|, last);
      assert m.body + init + [last] == m.body + data;
    }
  }

  // ---------- the line a sender writes ----------

  /** The line of a header, and which lines are short enough to be sent. */
  lemma HeaderLineIs(h: Header)
    requires 0 !in h.name && 0 !in h.value
    ensures HeaderLine(h) == h.name + Ascii(": ") + h.value + Ascii("\r\n")
    ensures Fits(h) <==> |h.name| + |h.value| <= 32760
  {
    assert Ascii(": ") == [COLON, SPACE] && Ascii("\r\n") == CRLF;
  }

  lemma LastChunkIs()
    ensures LAST_CHUNK == Ascii("0\r\n\r\n")
  {
  }

  // ---------- the round trip of a message with a length ----------

  /** One length among headers that say nothing else about the body. */
  ghost predicate OneLength(headers: seq<Header>, k: nat, n: nat) {
    && k < |headers| && headers[k].value == Decimal(n)
    && (forall i :: 0 <= i < |headers| ==> !SameButCase(headers[i].name, Ascii("Transfer-Encoding")))
    && (forall i :: 0 <= i < |headers| ==> (SameButCase(headers[i].name, Ascii("Content-Length")) <==> i == k))
  }

  lemma {:induction false} LengthKept(headers: seq<Header>, k: nat, n: nat, upTo: nat)
    requires OneLength(headers, k, n) && n < 0x1_0000_0000 && upTo <= |headers|
    ensures HeaderEffects(Fields(StHeaders, false, SIZE_UNKNOWN), headers[..upTo])
            == Some(Fields(StHeaders, false, if upTo > k then n else SIZE_UNKNOWN))
  {
    hide EqualsIgnoreCase, SameButCase, Strtoul, Decimal;
    if upTo > 0 {
      var h := headers[upTo - 1];
      LengthKept(headers, k, n, upTo - 1);
      assert headers[..upTo][..upTo - 1] == headers[..upTo - 1];
      EqualsIgnoreCaseMeans(h.name, CONTENT_LENGTH);
      EqualsIgnoreCaseMeans(h.name, TRANSFER_ENCODING);
      DecimalReadsBack(n);
      assert Decimal(n) != [] by { DecimalSpells(n); }
    }
  }

  /** The round trip of a plain message whose length is announced by one of its headers and left alone
  by the callbacks: the body comes back exactly if the announced length is its length. */
  lemma AnnouncedRoundTrip(cb: Callbacks, leader: bytes, headers: seq<Header>, k: nat, n: nat, body: bytes)
    requires BareLine(leader) && cb.parseLeader(leader) == HE_NONE
    requires (forall i :: 0 <= i < |headers| ==> Clean(headers[i])) && OneLength(headers, k, n) && n < 0x1_0000_0000
    requires forall size: Size :: cb.onHeaderComplete(Some(leader), headers, false, size) == (HE_NONE, size)
    ensures var wire := PlainMessage(leader, headers, body);
      Feed(cb, At(Reset, 0), wire)
      == Parse(Machine(Fields(StData, false, 0), Some(leader), headers, body), [], |wire|, Some(HE_NONE))
      <==> n == |body|
  {
    LengthKept(headers, k, n, |headers|);
    assert headers[..|headers|] == headers;
    hide Feed, HeaderEffects, OneLength, PlainMessage;
    PlainRoundTrip(cb, leader, headers, Fields(StHeaders, false, n), n, body);
  }
}
