/** What the options of the base64 decoder change and what they leave alone. */
module Base64Options {
  import opened Base64
  import opened Base64Laws
  import opened Bytes

  // ---------- how a string may end ----------

  /** The rule for the end of the data never changes what is decoded: each rule accepts what the next
  stricter one does, `TermChar` all that `TermBuffer` does and strings with something behind, and
  `TermAny` also strings that end within a byte. */
  lemma TermOnlyJudges(parse: ParseFlag, pad: PadFlag, s: octets)
    ensures var buffer := Decode(Flags(parse, pad, TermBuffer), s);
      var chars := Decode(Flags(parse, pad, TermChar), s);
      var any := Decode(Flags(parse, pad, TermAny), s);
      && buffer.result == chars.result == any.result && buffer.used == chars.used == any.used
      && (buffer.success <==> chars.success && chars.used == |s|)
      && (chars.success <==> any.success && UnusedBits(Remainder(Body(parse, s, 0).0)) == 0)
  {
    hide Decode, Body, TakePads, Skip, UnusedBits, BytesOf, Remainder;
    DecodeMeans(Flags(parse, pad, TermBuffer), s);
    DecodeMeans(Flags(parse, pad, TermChar), s);
    DecodeMeans(Flags(parse, pad, TermAny), s);
  }

  // ---------- pads ----------

  /** The bytes decoded depend on how the string is parsed only: they are those of the values that can
  be reached, whatever is required of the pads and of the end. */
  lemma ResultIsValues(flags: Flags, s: octets, g: nat)
    requires Reach(flags.parse, s, 0, g)
    ensures Decode(flags, s).result == BytesOf(ValuesIn(s, 0, g))
  {
    hide Decode, Body, TakePads, Skip, UnusedBits, BytesOf, Remainder, ValuesIn, Reach;
    DecodeMeans(flags, s);
    BodyIs(flags.parse, s, 0, g);
  }

  lemma ParseAnyTakesAll(flags: Flags, s: octets)
    requires flags.parse == ParseAny
    ensures Decode(flags, s).result == BytesOf(ValuesIn(s, 0, |s|))
  {
    hide Decode, BytesOf, InAlphabet, Table;
    BodyReaches(ParseAny, s, 0);
    var g := Body(ParseAny, s, 0).1;
    hide Body;
    ResultIsValues(flags, s, g);
    NoValuesBehind(s, g);
    ValuesSplit(s, 0, g);
    assert ValuesIn(s, 0, g) + [] == ValuesIn(s, 0, g);
  }

  lemma NoValuesBehind(s: octets, g: nat)
    requires g <= |s| && !ValueAhead(ParseAny, s, g)
    ensures ValuesIn(s, g, |s|) == []
    ensures forall k :: g <= k < |s| ==> !InAlphabet(s[k])
  {
    hide InAlphabet, Table;
    var p := Skip(ParseAny, false, s, g);
    assert p == |s|;
    NoValuesIn(s, g);
  }

  lemma {:induction false} NoValuesIn(s: octets, g: nat)
    requires g <= |s| && forall k :: g <= k < |s| ==> !InAlphabet(s[k])
    ensures ValuesIn(s, g, |s|) == []
    decreases |s| - g
  {
    hide InAlphabet, Table;
    if g < |s| {
      NoValuesIn(s, g + 1);
    }
  }

  lemma Regroup(a: octets, b: octets, c: octets)
    ensures a + (b + c) == a + b + c && [] + c == c
  {
  }

  lemma {:induction false} ValuesSplit(s: octets, i: nat, g: nat)
    requires i <= g <= |s|
    ensures ValuesIn(s, i, |s|) == ValuesIn(s, i, g) + ValuesIn(s, g, |s|)
    decreases g - i
  {
    hide ValueOf;
    if i < g {
      ValuesSplit(s, i + 1, g);
      Regroup(ValueOf(s[i]), ValuesIn(s, i + 1, g), ValuesIn(s, g, |s|));
    } else {
      Regroup([], [], ValuesIn(s, g, |s|));
    }
  }

  /** What is accepted with pads is accepted where they are optional, with the same result. */
  lemma PadsOptional(parse: ParseFlag, term: TermFlag, s: octets)
    requires Decode(Flags(parse, PadYes, term), s).success
    ensures Decode(Flags(parse, PadAny, term), s) == Decode(Flags(parse, PadYes, term), s)
  {
    hide Decode, Body, TakePads, Skip, UnusedBits, BytesOf, Remainder;
    DecodeMeans(Flags(parse, PadYes, term), s);
    DecodeMeans(Flags(parse, PadAny, term), s);
  }

  /** What is accepted where pads are disallowed is accepted where they are optional, and the same is
  decoded, but for a string that is parsed for anything, is to be used up, and ends in some but not
  enough of the pads that its values lack. */
  lemma PadsAllowed(parse: ParseFlag, term: TermFlag, s: octets)
    requires Decode(Flags(parse, PadNo, term), s).success
    ensures var any := Decode(Flags(parse, PadAny, term), s);
      && any.result == Decode(Flags(parse, PadNo, term), s).result
      && (any.success <==> (term == TermBuffer ==> any.used == |s|))
      && (!any.success ==> parse == ParseAny && term == TermBuffer)
  {
    hide Decode, Body, UnusedBits, BytesOf, Remainder;
    DecodeMeans(Flags(parse, PadNo, term), s);
    DecodeMeans(Flags(parse, PadAny, term), s);
    var (vals, g) := Body(parse, s, 0);
    if parse != ParseAny {
      PadPassed(parse);
      hide Passes, InAlphabet;
      if |vals| % 4 >= 2 && Skip(parse, false, s, g) == |s| {
        NoPads(parse, s, g, 4 - |vals| % 4);
      }
    }
  }

  lemma {:induction false} NoPads(parse: ParseFlag, s: octets, i: nat, need: nat)
    requires i <= |s| && need > 0 && forall k :: i <= k < |s| ==> s[k] != PAD
    ensures TakePads(parse, s, i, need) == None
    decreases |s| - i
  {
    hide Passes;
    if i < |s| {
      NoPads(parse, s, i + 1, need);
    }
  }

  // ---------- what is passed over ----------

  /** `p` passes what `q` passes, and perhaps more. */
  predicate Laxer(p: ParseFlag, q: ParseFlag) {
    p == q || q == ParseStrict || p == ParseAny
  }

  lemma PassesMore(p: ParseFlag, q: ParseFlag, ch: octet)
    requires Laxer(p, q) && Passes(q, ch)
    ensures Passes(p, ch) && !InAlphabet(ch)
  {
    KindsOfChars(ch);
    hide Table;
  }

  lemma ReachMore(p: ParseFlag, q: ParseFlag, s: octets, g: nat)
    requires Laxer(p, q) && Reach(q, s, 0, g) && forall k :: g <= k < |s| ==> !InAlphabet(s[k])
    ensures Reach(p, s, 0, g)
  {
    forall k | 0 <= k < g
      ensures InAlphabet(s[k]) || Passes(p, s[k])
    {
      if !InAlphabet(s[k]) { PassesMore(p, q, s[k]); }
    }
    hide Passes, InAlphabet, Laxer;
  }

  lemma {:induction false} PadsMore(p: ParseFlag, q: ParseFlag, s: octets, i: nat, need: nat)
    requires Laxer(p, q) && i <= |s| && TakePads(q, s, i, need) == Some(|s|)
    ensures TakePads(p, s, i, need) == Some(|s|)
    ensures forall k :: i <= k < |s| ==> !InAlphabet(s[k])
    decreases |s| - i
  {
    hide Passes, InAlphabet, Laxer;
    if need == 0 {
      SkipMore(p, q, false, s, i);
    } else if i < |s| {
      PadPassed(p);
      if s[i] == PAD {
        PadsMore(p, q, s, i + 1, need - 1);
      } else {
        PassesMore(p, q, s[i]);
        PadsMore(p, q, s, i + 1, need);
      }
    }
  }

  lemma SkipMore(p: ParseFlag, q: ParseFlag, untilPad: bool, s: octets, i: nat)
    requires Laxer(p, q) && i <= |s| && Skip(q, untilPad, s, i) == |s|
    ensures Skip(p, untilPad, s, i) == |s|
    ensures forall k :: i <= k < |s| ==> !InAlphabet(s[k])
  {
    forall k | i <= k < |s|
      ensures Passes(p, s[k]) && !InAlphabet(s[k])
    {
      PassesMore(p, q, s[k]);
    }
    hide Passes, InAlphabet, Laxer;
  }

  /** Used up to its end, a string has nothing but pads and what is passed over behind its values. */
  lemma LaxerEnd(p: ParseFlag, q: ParseFlag, pad: PadFlag, s: octets, vals: octets, g: nat)
    requires Laxer(p, q) && g <= |s|
    requires var pads := if PadsCount(pad, vals) then TakePads(q, s, g, 4 - |vals| % 4) else None;
      if pads.Some? then pads.value == |s| else Skip(q, PadsCount(pad, vals), s, g) == |s|
    ensures forall k :: g <= k < |s| ==> !InAlphabet(s[k])
    ensures PadsCount(pad, vals) ==> TakePads(p, s, g, 4 - |vals| % 4) == TakePads(q, s, g, 4 - |vals| % 4)
    ensures !PadsCount(pad, vals) || TakePads(q, s, g, 4 - |vals| % 4) == None
            ==> Skip(p, PadsCount(pad, vals), s, g) == |s|
  {
    hide Laxer, Passes, InAlphabet;
    if PadsCount(pad, vals) && TakePads(q, s, g, 4 - |vals| % 4).Some? {
      PadsMore(p, q, s, g, 4 - |vals| % 4);
    } else {
      SkipMore(p, q, PadsCount(pad, vals), s, g);
      if PadsCount(pad, vals) {
        NoPads(p, s, g, 4 - |vals| % 4);
      }
    }
  }

  lemma LaxerBody(p: ParseFlag, q: ParseFlag, s: octets)
    requires Laxer(p, q)
    requires forall k :: Body(q, s, 0).1 <= k < |s| ==> !InAlphabet(s[k])
    ensures Body(p, s, 0) == Body(q, s, 0)
  {
    hide Laxer, Body, InAlphabet, Reach, ValuesIn;
    var g := Body(q, s, 0).1;
    BodyReaches(q, s, 0);
    ReachMore(p, q, s, g);
    BodyIs(p, s, 0, g);
    BodyIs(q, s, 0, g);
  }

  /** A string that is used up to its end under one way of parsing means the same under each laxer one. */
  lemma LaxerParsing(p: ParseFlag, q: ParseFlag, pad: PadFlag, term: TermFlag, s: octets)
    requires Laxer(p, q)
    requires Decode(Flags(q, pad, term), s).success && Decode(Flags(q, pad, term), s).used == |s|
    ensures Decode(Flags(p, pad, term), s) == Decode(Flags(q, pad, term), s)
  {
    hide Decode, UnusedBits, BytesOf, Remainder, Laxer, InAlphabet, Body, TakePads, Skip;
    DecodeMeans(Flags(q, pad, term), s);
    DecodeMeans(Flags(p, pad, term), s);
    var (vals, g) := Body(q, s, 0);
    LaxerEnd(p, q, pad, s, vals, g);
    LaxerBody(p, q, s);
  }

  /** Without that, a laxer way of parsing may read on, and fail: "Zg!Z" is "f" up to the "!". */
  lemma ReadsOn()
    ensures var s: octets := [90, 103, 33, 90];
      && Decode(Flags(ParseStrict, PadAny, TermChar), s) == Decoded(true, [102], 2)
      && !Decode(Flags(ParseAny, PadAny, TermChar), s).success
  {
    ReadsTwo();
    ReadsThree();
  }

  lemma ReadsTwo()
    ensures Decode(Flags(ParseStrict, PadAny, TermChar), [90, 103, 33, 90]) == Decoded(true, [102], 2)
  {
    var s: octets := [90, 103, 33, 90];
    DecodeMeans(Flags(ParseStrict, PadAny, TermChar), s);
    hide Decode, Body;
    TableOfZg();
    BodyIs(ParseStrict, s, 0, 2) by {
      assert Reach(ParseStrict, s, 0, 2);
    }
    assert ValuesIn(s, 0, 2) == [25, 32];
    assert Byte0(25, 32) == 102 && Byte1(32, 0) == 0;
  }

  lemma ReadsThree()
    ensures !Decode(Flags(ParseAny, PadAny, TermChar), [90, 103, 33, 90]).success
  {
    var s: octets := [90, 103, 33, 90];
    DecodeMeans(Flags(ParseAny, PadAny, TermChar), s);
    hide Decode, Body, TakePads, BytesOf;
    ThreeReached(s);
    assert Byte2(25, 0) == 64;
  }

  lemma ThreeReached(s: octets)
    requires s == [90, 103, 33, 90]
    ensures Body(ParseAny, s, 0) == ([25, 32, 25], 4)
  {
    hide Body;
    TableOfZg();
    BodyIs(ParseAny, s, 0, 4) by {
      assert Reach(ParseAny, s, 0, 4);
    }
    assert ValuesIn(s, 2, 4) == [25];
    assert ValuesIn(s, 0, 4) == [25, 32, 25];
  }

  lemma TableOfZg()
    ensures Table(90) == 25 && Table(103) == 32 && Table(33) == IL && Table(61) == PD
  {
  }

  /** The exception above: "Zg=" is "f" where pads are passed over, and incomplete where they count. */
  lemma TooFewPads()
    ensures var s: octets := [90, 103, 61];
      && Decode(Flags(ParseAny, PadNo, TermBuffer), s) == Decoded(true, [102], 3)
      && !Decode(Flags(ParseAny, PadAny, TermBuffer), s).success
  {
    var s: octets := [90, 103, 61];
    DecodeMeans(Flags(ParseAny, PadNo, TermBuffer), s);
    DecodeMeans(Flags(ParseAny, PadAny, TermBuffer), s);
    hide Decode, Body;
    TableOfZg();
    BodyIs(ParseAny, s, 0, 2) by {
      assert Reach(ParseAny, s, 0, 2);
    }
    assert ValuesIn(s, 0, 2) == [25, 32];
    assert Byte0(25, 32) == 102 && Byte1(32, 0) == 0;
  }

  // ---------- encodings ----------

  lemma {:induction false} BytesOfLength(vals: octets)
    ensures |BytesOf(vals)| == |vals| / 4 * 3 + (if |vals| % 4 < 2 then 0 else |vals| % 4 - 1)
  {
    hide Byte0, Byte1, Byte2;
    if |vals| >= 4 {
      BytesOfLength(vals[4..]);
    }
  }

  lemma BytesOfRemainder(vals: octets)
    ensures |BytesOf(vals)| % 3 == if |vals| % 4 < 2 then 0 else |vals| % 4 - 1
  {
    hide BytesOf;
    BytesOfLength(vals);
    var k, n := |vals| / 4, |vals| % 4;
    assert (k * 3) % 3 == 0;
    if n >= 2 {
      assert (k * 3 + (n - 1)) % 3 == n - 1;
    }
  }

  lemma {:induction false} StrictPads(s: octets, i: nat, need: nat)
    requires i <= |s| && TakePads(ParseStrict, s, i, need).Some?
    ensures TakePads(ParseStrict, s, i, need) == Some(i + need) && i + need <= |s|
    ensures forall k :: i <= k < i + need ==> s[k] == PAD
    decreases need
  {
    if need > 0 {
      StrictPads(s, i + 1, need - 1);
    }
  }

  /** The values of an encoding, and the pads behind them. */
  lemma EncodedBody(x: octets)
    ensures var t := Encode(x);
      var (vals, g) := Body(ParseStrict, t, 0);
      && BytesOf(vals) == x && UnusedBits(Remainder(vals)) == 0
      && (|x| % 3 == 0 ==> |vals| % 4 == 0 && g == |t|)
      && (|x| % 3 != 0 ==> |vals| % 4 == |x| % 3 + 1 && g == |t| - (3 - |x| % 3)
                           && TakePads(ParseStrict, t, g, 4 - |vals| % 4) == Some(|t|))
      && (forall k :: g <= k < |t| ==> t[k] == PAD)
  {
    hide Decode, UnusedBits, Remainder, Encode, TakePads, BytesOf, Body, Skip;
    var t := Encode(x);
    StrictIsInverse(t);
    DecodeMeans(STRICT, t);
    var (vals, g) := Body(ParseStrict, t, 0);
    BytesOfRemainder(vals);
    if PadsBehind(STRICT, t, 0).Some? {
      StrictPads(t, g, 4 - |vals| % 4);
    }
  }

  /** An encoding is decoded to what was encoded under all options, and accepted under all but one kind:
  pads that are disallowed are left over, unless anything is passed over. */
  lemma EncodingsDecode(flags: Flags, x: octets)
    ensures var d := Decode(flags, Encode(x));
      var leavesPads := flags.pad == PadNo && flags.parse != ParseAny && |x| % 3 != 0;
      && d.result == x
      && d.used == |Encode(x)| - (if leavesPads then 3 - |x| % 3 else 0)
      && (d.success <==> !(leavesPads && flags.term == TermBuffer))
  {
    hide Decode, Body, Encode, UnusedBits, Remainder, BytesOf, Skip, TakePads;
    EncodedBody(x);
    EncodedBodyLax(flags.parse, x);
    EncodedEnd(flags.parse, x);
    DecodeMeans(flags, Encode(x));
  }

  /** Behind the values of an encoding: the pads they lack are there, and are passed over where anything
  is. */
  lemma EncodedEnd(parse: ParseFlag, x: octets)
    ensures var t := Encode(x);
      var (vals, g) := Body(ParseStrict, t, 0);
      && (|vals| % 4 >= 2 ==> TakePads(parse, t, g, 4 - |vals| % 4) == Some(|t|))
      && Skip(parse, false, t, g) == if parse == ParseAny then |t| else g
  {
    hide Body, Encode, UnusedBits, Remainder, BytesOf, Passes, InAlphabet;
    EncodedBody(x);
    PadPassed(parse);
    var (vals, g) := Body(ParseStrict, Encode(x), 0);
    if |vals| % 4 >= 2 {
      PadsMore(parse, ParseStrict, Encode(x), g, 4 - |vals| % 4);
    }
    hide TakePads;
  }

  lemma EncodedBodyLax(parse: ParseFlag, x: octets)
    ensures Body(parse, Encode(x), 0) == Body(ParseStrict, Encode(x), 0)
  {
    hide Encode, Body;
    EncodedBody(x);
    PadPassed(parse);
    hide InAlphabet;
    LaxerBody(parse, ParseStrict, Encode(x));
  }

  // ---------- white space, and anything else ----------

  /** White space and, where anything may be passed over, whatever is neither in the alphabet nor a pad. */
  predicate Dropped(parse: ParseFlag, ch: octet) {
    Passes(parse, ch) && ch != PAD
  }

  function Strip(parse: ParseFlag, s: octets): octets {
    if s == [] then []
    else if Dropped(parse, s[|s| - 1]) then Strip(parse, s[..|s| - 1])
    else Strip(parse, s[..|s| - 1]) + [s[|s| - 1]]
  }

  /** Where the character at `i` comes to stand. */
  function Place(parse: ParseFlag, s: octets, i: nat): nat
    requires i <= |s|
  {
    |Strip(parse, s[..i])|
  }

  lemma {:induction false} StripPrefix(parse: ParseFlag, s: octets, i: nat)
    requires i <= |s|
    ensures Strip(parse, s[..i]) <= Strip(parse, s)
    decreases |s|
  {
    hide Dropped;
    if i < |s| {
      StripPrefix(parse, s[..|s| - 1], i);
      assert s[..|s| - 1][..i] == s[..i];
    } else {
      assert s[..i] == s;
    }
  }

  lemma PlaceOf(parse: ParseFlag, s: octets, i: nat)
    requires i < |s|
    ensures var t := Strip(parse, s);
      && Place(parse, s, i) <= |t|
      && if Dropped(parse, s[i]) then Place(parse, s, i + 1) == Place(parse, s, i)
         else
           && Place(parse, s, i + 1) == Place(parse, s, i) + 1 <= |t|
           && t[Place(parse, s, i)] == s[i]
  {
    hide Dropped;
    StripPrefix(parse, s, i);
    StripPrefix(parse, s, i + 1);
    assert s[..i + 1][..i] == s[..i];
  }

  lemma PlaceOfEnds(parse: ParseFlag, s: octets)
    ensures Place(parse, s, 0) == 0 && Place(parse, s, |s|) == |Strip(parse, s)|
  {
    assert s[..|s|] == s;
  }

  lemma PlaceInRange(parse: ParseFlag, s: octets, i: nat)
    requires i <= |s|
    ensures Place(parse, s, i) <= |Strip(parse, s)|
  {
    StripPrefix(parse, s, i);
  }

  lemma {:induction false} SkipStripped(parse: ParseFlag, untilPad: bool, s: octets, i: nat)
    requires i <= |s|
    ensures Place(parse, s, i) <= |Strip(parse, s)|
    ensures Skip(parse, untilPad, Strip(parse, s), Place(parse, s, i))
            == Place(parse, s, Skip(parse, untilPad, s, i))
    decreases |s| - i
  {
    hide Strip, Place, Passes;
    PlaceOfEnds(parse, s);
    if i < |s| {
      PlaceOf(parse, s, i);
      SkipStripped(parse, untilPad, s, i + 1);
    }
  }

  lemma {:induction false} BodyStripped(parse: ParseFlag, s: octets, i: nat)
    requires i <= |s|
    ensures Place(parse, s, i) <= |Strip(parse, s)|
    ensures Body(parse, Strip(parse, s), Place(parse, s, i))
            == (Body(parse, s, i).0, Place(parse, s, Body(parse, s, i).1))
    decreases |s| - i
  {
    hide Strip, Place, Passes, InAlphabet, Skip, Table, Body, Small;
    var p, t := Skip(parse, false, s, i), Strip(parse, s);
    SkipStripped(parse, false, s, i);
    PlaceOfEnds(parse, s);
    if p < |s| {
      PlaceOf(parse, s, p);
    }
    if ValueAhead(parse, s, i) {
      NotPassed(parse, s[p]);
      BodyStripped(parse, s, p + 1);
      BodyUnfolds(parse, s, i);
      BodyUnfolds(parse, t, Place(parse, s, i));
    } else {
      BodyEnds(parse, s, i);
      if p < |s| {
        SkipEnds(parse, false, s, i);
      }
      BodyEnds(parse, t, Place(parse, s, i));
    }
  }

  lemma SkipEnds(parse: ParseFlag, untilPad: bool, s: octets, i: nat)
    requires i <= |s|
    ensures var p := Skip(parse, untilPad, s, i);
      p < |s| ==> !Dropped(parse, s[p])
  {
    hide Passes;
  }

  lemma BodyEnds(parse: ParseFlag, s: octets, i: nat)
    requires i <= |s| && !ValueAhead(parse, s, i)
    ensures Body(parse, s, i) == ([], i)
  {
  }

  lemma {:induction false} PadsStripped(parse: ParseFlag, s: octets, i: nat, need: nat)
    requires i <= |s|
    ensures Place(parse, s, i) <= |Strip(parse, s)|
    ensures TakePads(parse, Strip(parse, s), Place(parse, s, i), need)
            == match TakePads(parse, s, i, need)
               case None => None
               case Some(end) => Some(Place(parse, s, end))
    ensures var r := TakePads(parse, s, i, need);
      r.Some? && r.value < |s| ==> !Dropped(parse, s[r.value])
    decreases |s| - i
  {
    hide Strip, Place, Passes;
    PlaceOfEnds(parse, s);
    if need == 0 {
      SkipStripped(parse, false, s, i);
      SkipEnds(parse, false, s, i);
    } else if i < |s| {
      PlaceOf(parse, s, i);
      PadsStripped(parse, s, i + 1, if s[i] == PAD then need - 1 else need);
    }
  }

  lemma PlaceMonotone(parse: ParseFlag, s: octets, i: nat, j: nat)
    requires i <= j <= |s|
    ensures Place(parse, s, i) <= Place(parse, s, j)
  {
    StripPrefix(parse, s[..j], i);
    assert s[..j][..i] == s[..i];
  }

  /** Behind `i` there is nothing but what is dropped, exactly if all that is kept comes before. */
  lemma PlaceIsEnd(parse: ParseFlag, s: octets, i: nat)
    requires i <= |s|
    ensures i < |s| && !Dropped(parse, s[i]) ==> Place(parse, s, i) < |Strip(parse, s)|
    ensures i < |s| && Place(parse, s, i) == |Strip(parse, s)| ==> Dropped(parse, s[|s| - 1])
    ensures Place(parse, s, |s|) == |Strip(parse, s)|
  {
    hide Strip, Place, Dropped;
    PlaceOfEnds(parse, s);
    if i < |s| {
      PlaceOf(parse, s, i);
      PlaceOf(parse, s, |s| - 1);
      PlaceMonotone(parse, s, i, |s| - 1);
    }
  }

  lemma ValueIsKept(parse: ParseFlag, s: octets, g: nat)
    requires Reach(parse, s, 0, g) && g == |s| > 0
    ensures !Dropped(parse, s[|s| - 1])
  {
    NotPassed(parse, s[|s| - 1]);
    hide Passes, InAlphabet;
  }

  lemma UsedStripped(flags: Flags, s: octets)
    ensures var t := Strip(flags.parse, s);
      var pads, used := PadsBehind(flags, s, 0), Meaning(flags, s, 0).used;
      && Body(flags.parse, t, 0).0 == Body(flags.parse, s, 0).0
      && Body(flags.parse, t, 0).1 == Place(flags.parse, s, Body(flags.parse, s, 0).1)
      && (PadsBehind(flags, t, 0).Some? <==> pads.Some?)
      && Meaning(flags, t, 0).used == Place(flags.parse, s, used)
      && (used == |s| <==> Place(flags.parse, s, used) == |t|)
  {
    var parse := flags.parse;
    hide Body, Strip, Place, TakePads, UnusedBits, Remainder, BytesOf, Dropped, Skip;
    var (vals, g) := Body(parse, s, 0);
    PlaceOfEnds(parse, s);
    BodyStripped(parse, s, 0);
    if PadsCount(flags.pad, vals) {
      PadsStripped(parse, s, g, 4 - |vals| % 4);
    }
    SkipStripped(parse, PadsCount(flags.pad, vals), s, g);
    SkipEnds(parse, PadsCount(flags.pad, vals), s, g);
    PlaceIsEnd(parse, s, Meaning(flags, s, 0).used);
  }

  lemma WholeStripped(parse: ParseFlag, s: octets)
    ensures var g := Body(parse, s, 0).1;
      g == |s| <==> Place(parse, s, g) == |Strip(parse, s)| && !(s != [] && Dropped(parse, s[|s| - 1]))
  {
    var g := Body(parse, s, 0).1;
    BodyReaches(parse, s, 0);
    hide Body;
    if g == |s| > 0 {
      ValueIsKept(parse, s, g);
    }
    hide Reach, Strip, Place, Dropped;
    PlaceIsEnd(parse, s, g);
  }

  /** White space is transparent where it is passed over, and so is everything else where everything is:
  without it the string has the same meaning.  The exception is behind a body that needs no pads, where
  it makes a decoder that wants pads miss them. */
  lemma DroppedIsTransparent(flags: Flags, s: octets)
    ensures var d, d' := Decode(flags, s), Decode(flags, Strip(flags.parse, s));
      && d.result == d'.result && d'.used == Place(flags.parse, s, d.used)
      && (d.success <==>
            d'.success && !(flags.pad == PadYes && |d.result| % 3 == 0 && s != []
                            && Dropped(flags.parse, s[|s| - 1])))
  {
    hide Decode, Body, Strip, Place, TakePads, UnusedBits, Remainder, BytesOf, Dropped, Skip;
    var t := Strip(flags.parse, s);
    DecodeMeans(flags, s);
    DecodeMeans(flags, t);
    BytesOfRemainder(Body(flags.parse, s, 0).0);
    UsedStripped(flags, s);
    WholeStripped(flags.parse, s);
  }

  /** A string that is an encoding but for white space, or for anything at all but pads, where that is
  passed over, is decoded to what was encoded.  It is accepted unless it is cut short at pads that are
  disallowed, or goes on behind an encoding without pads although pads are wanted. */
  lemma SpacedEncodings(flags: Flags, s: octets, x: octets)
    requires Strip(flags.parse, s) == Encode(x)
    ensures var d := Decode(flags, s);
      && d.result == x
      && (d.success <==>
            && !(flags.pad == PadNo && flags.parse != ParseAny && |x| % 3 != 0 && flags.term == TermBuffer)
            && !(flags.pad == PadYes && |x| % 3 == 0 && s != [] && Dropped(flags.parse, s[|s| - 1])))
  {
    hide Decode, Encode, Strip, Dropped;
    DroppedIsTransparent(flags, s);
    EncodingsDecode(flags, x);
  }

  /** The options of `PemToDer` on the lines "Zm9v" and "YmFy": "foobar", and nothing left over. */
  lemma LinesOfFoobar()
    ensures Decode(Flags(ParseWhite, PadAny, TermBuffer), [90, 109, 57, 118, 10, 89, 109, 70, 121])
            == Decoded(true, [102, 111, 111, 98, 97, 114], 9)
  {
    var s: octets := [90, 109, 57, 118, 10, 89, 109, 70, 121];
    var flags := Flags(ParseWhite, PadAny, TermBuffer);
    Foobar();
    LinesStripped();
    SpacedEncodings(flags, s, [102, 111, 111, 98, 97, 114]);
    hide Decode;
    DecodeMeans(flags, s);
  }

  lemma {:induction false} StripAppend(parse: ParseFlag, a: octets, b: octets)
    ensures Strip(parse, a + b) == Strip(parse, a) + Strip(parse, b)
    decreases |b|
  {
    hide Dropped;
    if b == [] {
      assert a + b == a;
    } else {
      StripAppend(parse, a, b[..|b| - 1]);
      assert (a + b)[..|a + b| - 1] == a + b[..|b| - 1];
    }
  }

  lemma {:induction false} StripNothing(parse: ParseFlag, s: octets)
    requires forall i :: 0 <= i < |s| ==> !Dropped(parse, s[i])
    ensures Strip(parse, s) == s
  {
    hide Dropped;
    if s != [] {
      StripNothing(parse, s[..|s| - 1]);
    }
  }

  lemma LinesStripped()
    ensures Strip(ParseWhite, [90, 109, 57, 118, 10, 89, 109, 70, 121]) == [90, 109, 57, 118, 89, 109, 70, 121]
  {
    var a: octets := [90, 109, 57, 118];
    var b: octets := [89, 109, 70, 121];
    StripNothing(ParseWhite, a);
    StripNothing(ParseWhite, b);
    StripAppend(ParseWhite, a, [10]);
    StripAppend(ParseWhite, a + [10], b);
    assert Strip(ParseWhite, [10]) == [] by { assert [10][..0] == []; }
    assert a + [10] + b == [90, 109, 57, 118, 10, 89, 109, 70, 121];
  }

  // ---------- what is left over ----------

  lemma {:induction false} SkipPrefix(parse: ParseFlag, untilPad: bool, s: octets, u: nat, i: nat)
    requires i <= u <= |s|
    ensures var p := Skip(parse, untilPad, s, i);
      Skip(parse, untilPad, s[..u], i) == if p < u then p else u
    decreases u - i
  {
    hide Passes;
    if i < u {
      SkipPrefix(parse, untilPad, s, u, i + 1);
    }
  }

  lemma {:induction false} PadsPrefix(parse: ParseFlag, s: octets, u: nat, i: nat, need: nat)
    requires i <= |s| && TakePads(parse, s, i, need) == Some(u)
    ensures i <= u <= |s| && TakePads(parse, s[..u], i, need) == Some(u)
    decreases |s| - i
  {
    hide Passes;
    if need == 0 {
      SkipPrefix(parse, false, s, u, i);
    } else if s[i] == PAD {
      PadsPrefix(parse, s, u, i + 1, need - 1);
    } else {
      PadsPrefix(parse, s, u, i + 1, need);
    }
  }

  lemma {:induction false} ValuesPrefix(s: octets, t: octets, i: nat, g: nat)
    requires i <= g <= |s| && g <= |t| && s[..g] == t[..g]
    ensures ValuesIn(s, i, g) == ValuesIn(t, i, g)
    decreases g - i
  {
    hide ValueOf;
    if i < g {
      assert s[..g][i] == t[..g][i];
      ValuesPrefix(s, t, i + 1, g);
    }
  }

  lemma ReachPrefix(parse: ParseFlag, s: octets, u: nat, g: nat)
    requires Reach(parse, s, 0, g) && g <= u <= |s|
    ensures Reach(parse, s[..u], 0, g)
  {
    SkipPrefix(parse, false, s, u, g);
    hide Passes, InAlphabet, Skip;
  }

  lemma BodyPrefix(parse: ParseFlag, s: octets, u: nat)
    requires Body(parse, s, 0).1 <= u <= |s|
    ensures Body(parse, s[..u], 0) == Body(parse, s, 0)
  {
    hide Body, ValuesIn, Reach;
    var g := Body(parse, s, 0).1;
    BodyReaches(parse, s, 0);
    ReachPrefix(parse, s, u, g);
    BodyIs(parse, s, 0, g);
    BodyIs(parse, s[..u], 0, g);
    assert s[..u][..g] == s[..g];
    ValuesPrefix(s, s[..u], 0, g);
  }

  /** What is used of a string that is accepted up to a character is a string that is accepted as a
  whole, with the same result. */
  lemma UsedIsAccepted(parse: ParseFlag, pad: PadFlag, s: octets)
    requires Decode(Flags(parse, pad, TermChar), s).success
    ensures var d := Decode(Flags(parse, pad, TermChar), s);
      Decode(Flags(parse, pad, TermBuffer), s[..d.used]) == Decoded(true, d.result, d.used)
  {
    hide Decode, UnusedBits, BytesOf, Remainder, Body, TakePads, Skip;
    var flags := Flags(parse, pad, TermChar);
    DecodeMeans(flags, s);
    var (vals, g) := Body(parse, s, 0);
    var u := Decode(flags, s).used;
    DecodeMeans(Flags(parse, pad, TermBuffer), s[..u]);
    BodyPrefix(parse, s, u);
    SkipPrefix(parse, PadsCount(pad, vals), s, u, g);
    if PadsCount(pad, vals) {
      if PadsBehind(flags, s, 0).Some? {
        PadsPrefix(parse, s, u, g, 4 - |vals| % 4);
      } else {
        NoPads(parse, s[..u], g, 4 - |vals| % 4);
      }
    }
  }

  // ---------- without pads ----------

  /** An encoding without its pads. */
  function Bare(x: octets): octets {
    EncodedLength(x);
    Encode(x)[..|Encode(x)| - (if |x| % 3 == 0 then 0 else 3 - |x| % 3)]
  }

  lemma BareAccepted(pad: PadFlag, x: octets)
    requires pad != PadYes
    ensures Decode(Flags(ParseStrict, pad, TermBuffer), Bare(x)) == Decoded(true, x, |Bare(x)|)
  {
    hide Decode, Encode;
    EncodingsDecode(Flags(ParseStrict, PadNo, TermChar), x);
    UsedIsAccepted(ParseStrict, PadNo, Encode(x));
    PadsAllowed(ParseStrict, TermBuffer, Bare(x));
  }

  lemma StrictBody(s: octets, g: nat)
    requires g <= |s| && (forall k :: 0 <= k < g ==> InAlphabet(s[k])) && (g < |s| ==> !InAlphabet(s[g]))
    ensures Body(ParseStrict, s, 0) == (ValuesIn(s, 0, g), g)
  {
    hide InAlphabet, Body, ValuesIn;
    assert Skip(ParseStrict, false, s, g) == g;
    BodyIs(ParseStrict, s, 0, g);
  }

  lemma StrictReaches(s: octets)
    ensures var g := Body(ParseStrict, s, 0).1;
      && g <= |s| && (forall k :: 0 <= k < g ==> InAlphabet(s[k])) && (g < |s| ==> !InAlphabet(s[g]))
      && Body(ParseStrict, s, 0) == (ValuesIn(s, 0, g), g)
  {
    hide InAlphabet, Body, ValuesIn;
    BodyReaches(ParseStrict, s, 0);
    BodyIs(ParseStrict, s, 0, Body(ParseStrict, s, 0).1);
  }

  /** Behind the encoding of complete groups, an "A" on its own has no bits to lose. */
  lemma LoneA(pad: PadFlag, x: octets)
    requires pad != PadYes && |x| % 3 == 0
    ensures Decode(Flags(ParseStrict, pad, TermBuffer), Encode(x) + [65]) == Decoded(true, x, |Encode(x)| + 1)
  {
    var t := Encode(x);
    var s := t + [65];
    EncodedBody(x);
    StrictReaches(t);
    LetterA();
    hide Encode, InAlphabet, Body, Decode, ValuesIn, Table;
    StrictBody(s, |s|);
    ValuesSplit(s, 0, |t|);
    assert s[..|t|] == t[..|t|];
    ValuesPrefix(s, t, 0, |t|);
    LastValue(s);
    var vals := ValuesIn(t, 0, |t|);
    OneMore(vals);
    hide BytesOf, Remainder, UnusedBits, TakePads;
    DecodeMeans(Flags(ParseStrict, pad, TermBuffer), s);
  }

  lemma LetterA()
    ensures InAlphabet(65) && Table(65) == 0
    ensures forall ch :: Table(ch) == 0 ==> ch == 65
  {
  }

  lemma LastValue(s: octets)
    requires s != [] && InAlphabet(s[|s| - 1])
    ensures ValuesIn(s, |s| - 1, |s|) == [Table(s[|s| - 1])]
  {
    hide Table;
  }

  /** A lone value behind complete fours makes no byte. */
  lemma {:induction false} OneMore(vals: octets)
    requires |vals| % 4 == 0
    ensures BytesOf(vals + [0]) == BytesOf(vals) && UnusedBits(Remainder(vals + [0])) == 0
  {
    hide Byte1, Byte2;
    if vals == [] {
      assert vals + [0] == [0];
    } else {
      OneMore(vals[4..]);
      assert (vals + [0])[4..] == vals[4..] + [0] && (vals + [0])[..4] == vals[..4];
      FourFewer(vals + [0]);
    }
  }

  lemma {:induction false} StrictPadsTaken(s: octets, i: nat)
    requires i <= |s| && forall k :: i <= k < |s| ==> s[k] == PAD
    ensures TakePads(ParseStrict, s, i, |s| - i) == Some(|s|)
    decreases |s| - i
  {
    if i < |s| {
      StrictPadsTaken(s, i + 1);
    }
  }

  /** Values that use all their bits, with the pads they lack, are an encoding. */
  lemma PaddedIsEncoded(s: octets)
    requires (forall k :: 0 <= k < |s| ==> InAlphabet(s[k])) && |ValuesIn(s, 0, |s|)| % 4 != 1
    requires UnusedBits(Remainder(ValuesIn(s, 0, |s|))) == 0
    ensures exists x :: s == Bare(x) && (|ValuesIn(s, 0, |s|)| % 4 == 0 ==> s == Encode(x) && |x| % 3 == 0)
  {
    var vals := ValuesIn(s, 0, |s|);
    var n := |vals| % 4;
    var t := s + Pads(if n == 0 then 0 else 4 - n);
    var x := BytesOf(vals);
    PadPassed(ParseStrict);
    hide InAlphabet, Body, Decode, ValuesIn, Table, Encode, BytesOf, UnusedBits, Remainder;
    StrictBody(t, |s|);
    assert s[..|s|] == t[..|s|];
    ValuesPrefix(s, t, 0, |s|);
    BytesOfRemainder(vals);
    StrictPadsTaken(t, |s|);
    DecodeMeans(STRICT, t);
    hide TakePads;
    assert Decode(STRICT, t).success;
    StrictIsInverse(t);
    assert t == Encode(x) && Bare(x) == t[..|s|] == s;
  }

  /** Where pads are not required, just these are accepted up to their end: encodings (if pads are
  allowed), encodings without their pads, and encodings of complete groups with an "A" behind. */
  lemma PadsNotRequired(pad: PadFlag, s: octets)
    requires pad != PadYes
    ensures Decode(Flags(ParseStrict, pad, TermBuffer), s).success
      <==> exists x ::
             || (pad == PadAny && s == Encode(x))
             || s == Bare(x)
             || (|x| % 3 == 0 && s == Encode(x) + [65])
  {
    hide Decode, Encode, Bare;
    if x :| (pad == PadAny && s == Encode(x)) || s == Bare(x) || (|x| % 3 == 0 && s == Encode(x) + [65]) {
      if s == Bare(x) {
        BareAccepted(pad, x);
      } else if s == Encode(x) + [65] && |x| % 3 == 0 {
        LoneA(pad, x);
      } else {
        EncodingsDecode(Flags(ParseStrict, pad, TermBuffer), x);
      }
    }
    if Decode(Flags(ParseStrict, pad, TermBuffer), s).success {
      AcceptedWithoutPads(pad, s);
    }
  }

  lemma AcceptedWithoutPads(pad: PadFlag, s: octets)
    requires pad != PadYes && Decode(Flags(ParseStrict, pad, TermBuffer), s).success
    ensures exists x ::
             || (pad == PadAny && s == Encode(x))
             || s == Bare(x)
             || (|x| % 3 == 0 && s == Encode(x) + [65])
  {
    var flags := Flags(ParseStrict, pad, TermBuffer);
    hide Decode, Encode, Bare, Body, ValuesIn, InAlphabet, BytesOf, UnusedBits, Remainder, TakePads;
    DecodeMeans(flags, s);
    if PadsBehind(flags, s, 0).Some? {
      AcceptedWithPads(pad, s);
    } else {
      NoPadsBehind(pad, s);
      if |ValuesIn(s, 0, |s|)| % 4 != 1 {
        PaddedIsEncoded(s);
      } else {
        LoneValue(s);
      }
    }
  }

  lemma AcceptedWithPads(pad: PadFlag, s: octets)
    requires Decode(Flags(ParseStrict, pad, TermBuffer), s).success
    requires PadsBehind(Flags(ParseStrict, pad, TermBuffer), s, 0).Some?
    ensures pad != PadNo && s == Encode(Decode(STRICT, s).result)
  {
    hide Decode, Encode, Body, BytesOf, UnusedBits, Remainder, TakePads;
    DecodeMeans(Flags(ParseStrict, pad, TermBuffer), s);
    DecodeMeans(STRICT, s);
    StrictIsInverse(s);
  }

  lemma NoPadsBehind(pad: PadFlag, s: octets)
    requires Decode(Flags(ParseStrict, pad, TermBuffer), s).success
    requires PadsBehind(Flags(ParseStrict, pad, TermBuffer), s, 0) == None
    ensures (forall k :: 0 <= k < |s| ==> InAlphabet(s[k])) && UnusedBits(Remainder(ValuesIn(s, 0, |s|))) == 0
  {
    hide Decode, Body, BytesOf, UnusedBits, Remainder, TakePads, InAlphabet, ValuesIn;
    DecodeMeans(Flags(ParseStrict, pad, TermBuffer), s);
    StrictReaches(s);
  }

  lemma LoneValue(s: octets)
    requires forall k :: 0 <= k < |s| ==> InAlphabet(s[k])
    requires var vals := ValuesIn(s, 0, |s|); |vals| % 4 == 1 && UnusedBits(Remainder(vals)) == 0
    ensures exists x :: |x| % 3 == 0 && s == Encode(x) + [65]
  {
    hide Encode, Bare, ValuesIn, InAlphabet, BytesOf, UnusedBits, Remainder;
    var m := |s| - 1;
    LastOfValues(s);
    LetterA();
    NothingUnused(ValuesIn(s[..m], 0, m));
    PaddedIsEncoded(s[..m]);
    assert s == s[..m] + [65];
  }

  /** The last value, alone behind complete fours, is 0. */
  lemma LastOfValues(s: octets)
    requires forall k :: 0 <= k < |s| ==> InAlphabet(s[k])
    requires var vals := ValuesIn(s, 0, |s|); |vals| % 4 == 1 && UnusedBits(Remainder(vals)) == 0
    ensures s != [] && Table(s[|s| - 1]) == 0
    ensures |ValuesIn(s[..|s| - 1], 0, |s| - 1)| % 4 == 0
  {
    hide InAlphabet, Table, UnusedBits;
    var m := |s| - 1;
    ValuesSplit(s, 0, m);
    LastValue(s);
    assert s[..m][..m] == s[..m];
    ValuesPrefix(s, s[..m], 0, m);
    hide ValuesIn;
    LastRemains(ValuesIn(s, 0, m), Table(s[m]));
    NoBits(Table(s[m]), s[m]);
  }

  lemma LastRemains(init: octets, v: octet)
    requires |init + [v]| % 4 == 1
    ensures Remainder(init + [v]) == [v] && |init| % 4 == 0
  {
  }

  lemma NoBits(v: octet, ch: octet)
    requires v == Table(ch) && InAlphabet(ch) && UnusedBits([v]) == 0
    ensures v == 0
  {
    hide Table;
  }

  lemma NothingUnused(vals: octets)
    requires |vals| % 4 == 0
    ensures UnusedBits(Remainder(vals)) == 0
  {
  }
}