/** What base64 decoding means under every combination of its options: a description of the whole
string, to which the decoder, going from quantum to quantum, is proved equal, and what follows. */
module Base64Laws {
  import opened Base64
  import opened Bytes

  // ---------- characters ----------

  /** The alphabet of section 4 of RFC 4648. */
  lemma AlphabetIs(v: octet)
    requires v < 64
    ensures Char(v) == if v < 26 then ('A' as octet) + v
                       else if v < 52 then ('a' as octet) + (v - 26)
                       else if v < 62 then ('0' as octet) + (v - 52)
                       else if v == 62 then '+' as octet else '/' as octet
  {
  }

  predicate IsWhite(ch: octet) {
    ch == 32 || 9 <= ch <= 13
  }

  predicate InAlphabet(ch: octet) {
    Table(ch) < 64
  }

  /** A character is in the alphabet if it is some value's; the pad and white space are not. */
  lemma KindsOfChars(ch: octet)
    ensures InAlphabet(ch) ==> Char(Table(ch)) == ch
    ensures ch == '=' as octet <==> Table(ch) == PD
    ensures IsWhite(ch) <==> Table(ch) == SP
    ensures InAlphabet(ch) || Table(ch) == PD || Table(ch) == SP || Table(ch) == IL
    ensures InAlphabet(ch) ==> ch != PAD && !IsWhite(ch)
  {
  }

  lemma CharsAreInAlphabet(v: octet)
    requires v < 64
    ensures InAlphabet(Char(v)) && Table(Char(v)) == v
  {
  }

  /** Four values make three bytes with the same 24 bits (section 4 of RFC 4648). */
  lemma SameBits(s0: octet, s1: octet, s2: octet, s3: octet)
    requires s0 < 64 && s1 < 64 && s2 < 64 && s3 < 64
    ensures ((Byte0(s0, s1) as bv24) << 16) | ((Byte1(s1, s2) as bv24) << 8) | (Byte2(s2, s3) as bv24)
         == ((s0 as bv24) << 18) | ((s1 as bv24) << 12) | ((s2 as bv24) << 6) | (s3 as bv24)
  {
  }

  /** The last of the test vectors in section 10 of RFC 4648: "foobar" is encoded as "Zm9vYmFy". */
  lemma Foobar()
    ensures Encode([102, 111, 111, 98, 97, 114]) == [90, 109, 57, 118, 89, 109, 70, 121]
  {
    var x: octets := [102, 111, 111, 98, 97, 114];
    assert x[3..] == [98, 97, 114];
    assert x[3..][3..] == [];
  }

  // ---------- the whole string ----------

  /** What is passed over between values: nothing, white space, or whatever is not in the alphabet. */
  predicate Passes(parse: ParseFlag, ch: octet) {
    match parse
    case ParseStrict => false
    case ParseWhite => IsWhite(ch)
    case ParseAny => !InAlphabet(ch)
  }

  /** The end of the characters passed over from `i` on, which `untilPad` keeps from passing a pad. */
  function Skip(parse: ParseFlag, untilPad: bool, s: octets, i: nat): (r: nat)
    requires i <= |s|
    ensures i <= r <= |s|
    ensures forall k :: i <= k < r ==> Passes(parse, s[k]) && !(untilPad && s[k] == PAD)
    ensures r < |s| ==> !Passes(parse, s[r]) || (untilPad && s[r] == PAD)
    decreases |s| - i
  {
    if i < |s| && Passes(parse, s[i]) && !(untilPad && s[i] == PAD) then Skip(parse, untilPad, s, i + 1) else i
  }

  /** There is a value to be reached from `i`. */
  predicate ValueAhead(parse: ParseFlag, s: octets, i: nat)
    requires i <= |s|
  {
    var p := Skip(parse, false, s, i);
    p < |s| && InAlphabet(s[p])
  }

  /** The values of all the characters that can be reached from `i`, and the end of the last. */
  function Body(parse: ParseFlag, s: octets, i: nat): (r: (octets, nat))
    requires i <= |s|
    ensures i <= r.1 <= |s| && Small(r.0) && !ValueAhead(parse, s, r.1)
    ensures r.0 == [] <==> r.1 == i
    decreases |s| - i
  {
    if ValueAhead(parse, s, i) then
      var p := Skip(parse, false, s, i);
      var rest := Body(parse, s, p + 1);
      ([Table(s[p])] + rest.0, rest.1)
    else ([], i)
  }

  /** The end of `need` pads from `i` on, with what is passed over among and behind them. */
  function TakePads(parse: ParseFlag, s: octets, i: nat, need: nat): (r: Option<nat>)
    requires i <= |s|
    ensures r.Some? ==> i <= r.value <= |s|
    decreases |s| - i
  {
    if need == 0 then Some(Skip(parse, false, s, i))
    else if i == |s| then None
    else if s[i] == PAD then TakePads(parse, s, i + 1, need - 1)
    else if Passes(parse, s[i]) then TakePads(parse, s, i + 1, need)
    else None
  }

  /** The bytes of any number of values, by fours. */
  function BytesOf(vals: octets): octets {
    if |vals| < 4 then QuantumBytes(vals) else QuantumBytes(vals[..4]) + BytesOf(vals[4..])
  }

  /** The values behind the last complete four. */
  function Remainder(vals: octets): (r: octets)
    ensures |r| == |vals| % 4
  {
    vals[|vals| - |vals| % 4..]
  }

  /** Pads count behind two or three values, unless they are disallowed. */
  predicate PadsCount(pad: PadFlag, vals: octets) {
    |vals| % 4 >= 2 && pad != PadNo
  }

  function PadsBehind(flags: Flags, s: octets, i: nat): Option<nat>
    requires i <= |s|
  {
    var (vals, g) := Body(flags.parse, s, i);
    if PadsCount(flags.pad, vals) then TakePads(flags.parse, s, g, 4 - |vals| % 4) else None
  }

  /** Decoding, as a description of the string from `i` on.  It ends behind the pads that complete
  the values; pads that do not are not used, nor is anything after them. */
  function Meaning(flags: Flags, s: octets, i: nat): Decoded
    requires i <= |s|
  {
    var (vals, g) := Body(flags.parse, s, i);
    var pads := PadsBehind(flags, s, i);
    var used := if pads.Some? then pads.value else Skip(flags.parse, PadsCount(flags.pad, vals), s, g);
    var whole := |vals| % 4 == 0 && g == |s|;
    Decoded(
      && (flags.term == TermAny || UnusedBits(Remainder(vals)) == 0)
      && (flags.pad == PadYes ==> whole || pads.Some?)
      && (flags.term == TermBuffer ==> used == |s|),
      BytesOf(vals), used)
  }

  // ---------- scanning ----------

  lemma StepOnValue(parse: ParseFlag, illegal: bool, s: octets, at: Scanned)
    requires InScan(s, at) && |at.vals| < 4 && at.pos < |s|
    requires InAlphabet(s[at.pos])
    ensures ScanStep(parse, illegal, s, at)
            == if at.pads > 0 && parse != ParseAny then at
               else Scanned(at.vals + [Table(s[at.pos])], 0, at.padStart, at.pos + 1)
  {
    KindsOfChars(s[at.pos]);
    hide Table;
  }

  /** A pad counts if it may, and is passed over like anything else if it may be. */
  lemma StepOnOther(parse: ParseFlag, illegal: bool, s: octets, at: Scanned)
    requires InScan(s, at) && |at.vals| < 4 && at.pos < |s|
    requires !InAlphabet(s[at.pos])
    ensures var counts := !illegal && |at.vals| >= 2 && |at.vals| + at.pads < 4;
      ScanStep(parse, illegal, s, at)
      == if s[at.pos] == PAD && counts then
           Scanned(at.vals, at.pads + 1, if at.pads == 0 then at.pos else at.padStart, at.pos + 1)
         else if Passes(parse, s[at.pos]) then at.(pos := at.pos + 1)
         else at
  {
    KindsOfChars(s[at.pos]);
    hide Table, IsWhite;
  }

  /** A scan passes what may be passed, and takes the next value. */
  lemma {:induction false} ScanToValue(parse: ParseFlag, illegal: bool, s: octets, at: Scanned) returns (padStart: nat)
    requires InScan(s, at) && |at.vals| < 4 && (parse != ParseAny ==> at.pads == 0)
    requires ValueAhead(parse, s, at.pos)
    ensures var p := Skip(parse, false, s, at.pos);
      && padStart <= p + 1
      && Scan(parse, illegal, s, at)
         == Scan(parse, illegal, s, Scanned(at.vals + [Table(s[p])], 0, padStart, p + 1))
    decreases |s| - at.pos
  {
    hide Scan, ScanStep, InAlphabet;
    ScanOnce(parse, illegal, s, at);
    if InAlphabet(s[at.pos]) {
      StepOnValue(parse, illegal, s, at);
      NotPassed(parse, s[at.pos]);
      padStart := at.padStart;
    } else {
      StepOnOther(parse, illegal, s, at);
      PadPassed(parse);
      padStart := ScanToValue(parse, illegal, s, ScanStep(parse, illegal, s, at));
    }
  }

  lemma NotPassed(parse: ParseFlag, ch: octet)
    requires InAlphabet(ch)
    ensures !Passes(parse, ch) && ch != PAD
  {
    KindsOfChars(ch);
    hide Table;
  }

  lemma PadPassed(parse: ParseFlag)
    ensures Passes(parse, PAD) <==> parse == ParseAny
    ensures !InAlphabet(PAD)
  {
  }

  /** Where a scan ends that finds no more values. */
  ghost predicate RunsOut(parse: ParseFlag, legal: bool, s: octets, at: Scanned, r: Scanned)
    requires InScan(s, at) && |at.vals| + at.pads <= 4
  {
    && r.vals == at.vals
    && if !legal then r.pads == 0 && r.pos == Skip(parse, false, s, at.pos)
       else
         match TakePads(parse, s, at.pos, 4 - |at.vals| - at.pads)
         case Some(end) => |r.vals| + r.pads == 4 && r.pos == end
         case None =>
           && |r.vals| + r.pads < 4
           && (if r.pads > 0 then r.padStart else r.pos)
              == (if at.pads > 0 then at.padStart else Skip(parse, true, s, at.pos))
  }

  /** A pad that counts. */
  lemma RunsOutAfterPad(parse: ParseFlag, s: octets, at: Scanned, r: Scanned)
    requires InScan(s, at) && at.pos < |s| && s[at.pos] == PAD && |at.vals| + at.pads < 4
    requires var next := Scanned(at.vals, at.pads + 1, if at.pads == 0 then at.pos else at.padStart, at.pos + 1);
      RunsOut(parse, true, s, next, r)
    ensures RunsOut(parse, true, s, at, r)
  {
    hide InAlphabet, Passes;
  }

  lemma RunsOutAfterOther(parse: ParseFlag, legal: bool, s: octets, at: Scanned, r: Scanned)
    requires InScan(s, at) && at.pos < |s| && Passes(parse, s[at.pos]) && |at.vals| + at.pads <= 4
    requires s[at.pos] == PAD && legal ==> |at.vals| + at.pads == 4
    requires RunsOut(parse, legal, s, at.(pos := at.pos + 1), r)
    ensures RunsOut(parse, legal, s, at, r)
  {
    hide InAlphabet, Passes;
  }

  lemma RunsOutHere(parse: ParseFlag, legal: bool, s: octets, at: Scanned)
    requires InScan(s, at) && |at.vals| + at.pads <= 4 && (at.pads > 0 ==> legal)
    requires at.pos < |s| ==> !Passes(parse, s[at.pos])
    requires at.pos < |s| && s[at.pos] == PAD && legal ==> |at.vals| + at.pads == 4
    ensures RunsOut(parse, legal, s, at, at)
  {
    hide InAlphabet, Passes;
  }

  lemma {:induction false} ScanRunsOut(parse: ParseFlag, illegal: bool, s: octets, at: Scanned)
    requires InScan(s, at) && |at.vals| < 4 && |at.vals| + at.pads <= 4
    requires at.pads > 0 ==> !illegal && |at.vals| >= 2
    requires parse == ParseAny || at.pads == 0 ==> !ValueAhead(parse, s, at.pos)
    ensures RunsOut(parse, !illegal && |at.vals| >= 2, s, at, Scan(parse, illegal, s, at))
    decreases |s| - at.pos
  {
    hide Scan, ScanStep, InAlphabet, TakePads, RunsOut, Passes, ValueAhead;
    var legal := !illegal && |at.vals| >= 2;
    if at.pos == |s| {
      ScanEnds(parse, illegal, s, at);
      RunsOutHere(parse, legal, s, at);
    } else {
      var ch := s[at.pos];
      ScanOnce(parse, illegal, s, at);
      if InAlphabet(ch) {
        NotPassed(parse, ch);
        NoneAhead(parse, s, at.pos);
        StepOnValue(parse, illegal, s, at);
        RunsOutHere(parse, legal, s, at);
      } else {
        StepOnOther(parse, illegal, s, at);
        PadPassed(parse);
        NoneAhead(parse, s, at.pos);
        if ch == PAD && legal && |at.vals| + at.pads < 4 {
          ScanRunsOut(parse, illegal, s, ScanStep(parse, illegal, s, at));
          RunsOutAfterPad(parse, s, at, Scan(parse, illegal, s, at));
        } else if Passes(parse, ch) {
          ScanRunsOut(parse, illegal, s, at.(pos := at.pos + 1));
          RunsOutAfterOther(parse, legal, s, at, Scan(parse, illegal, s, at));
        } else {
          RunsOutHere(parse, legal, s, at);
        }
      }
    }
  }

  lemma NoneAhead(parse: ParseFlag, s: octets, i: nat)
    requires i < |s|
    ensures !ValueAhead(parse, s, i) && Passes(parse, s[i]) ==> !ValueAhead(parse, s, i + 1)
    ensures !Passes(parse, s[i]) && InAlphabet(s[i]) ==> ValueAhead(parse, s, i)
  {
    hide Passes, InAlphabet;
  }

  lemma FreshRunsOut(parse: ParseFlag, illegal: bool, s: octets, at: Scanned)
    requires InScan(s, at) && |at.vals| < 4 && at.pads == 0 && !ValueAhead(parse, s, at.pos)
    ensures RunsOut(parse, !illegal && |at.vals| >= 2, s, Scanned(at.vals, 0, 0, at.pos), Scan(parse, illegal, s, at))
  {
    hide Scan, ScanStep, InAlphabet, TakePads, ValueAhead, Skip;
    ScanRunsOut(parse, illegal, s, at);
  }

  /** A scan that had taken `before` takes the first of the values that can be reached, or all of them
  and runs out. */
  ghost predicate Took(parse: ParseFlag, illegal: bool, s: octets, before: octets, vals: octets, g: nat, r: Scanned)
    requires g <= |s| && |before| <= 4 && InScan(s, r)
  {
    var need := 4 - |before|;
    if |vals| >= need then
      && r.vals == before + vals[..need] && r.pads == 0
      && Body(parse, s, r.pos) == (vals[need..], g)
    else RunsOut(parse, !illegal && |before + vals| >= 2, s, Scanned(before + vals, 0, 0, g), r)
  }

  ghost predicate TookBody(parse: ParseFlag, illegal: bool, s: octets, at: Scanned, r: Scanned)
    requires InScan(s, at) && InScan(s, r)
  {
    Took(parse, illegal, s, at.vals, Body(parse, s, at.pos).0, Body(parse, s, at.pos).1, r)
  }

  lemma BodyUnfolds(parse: ParseFlag, s: octets, i: nat)
    requires i <= |s| && ValueAhead(parse, s, i)
    ensures var p := Skip(parse, false, s, i);
      var rest := Body(parse, s, p + 1);
      Body(parse, s, i) == ([Table(s[p])] + rest.0, rest.1)
  {
    hide Table, Small, Skip;
  }

  lemma TookAfter(parse: ParseFlag, illegal: bool, s: octets, before: octets, v: octet, rest: octets, g: nat,
                  r: Scanned)
    requires g <= |s| && |before| < 4 && InScan(s, r)
    requires Took(parse, illegal, s, before + [v], rest, g, r)
    ensures Took(parse, illegal, s, before, [v] + rest, g, r)
  {
    hide RunsOut, Body;
    MovedOver(before, v, rest, 3 - |before|);
  }

  lemma TookOneMore(parse: ParseFlag, illegal: bool, s: octets, at: Scanned, next: Scanned, r: Scanned)
    requires InScan(s, at) && InScan(s, next) && InScan(s, r) && |at.vals| < 4 && ValueAhead(parse, s, at.pos)
    requires var p := Skip(parse, false, s, at.pos); next.vals == at.vals + [Table(s[p])] && next.pos == p + 1
    requires TookBody(parse, illegal, s, next, r)
    ensures TookBody(parse, illegal, s, at, r)
  {
    hide Table, RunsOut, ValueAhead, Small, Body, Skip, Took;
    BodyUnfolds(parse, s, at.pos);
    var rest := Body(parse, s, next.pos);
    TookAfter(parse, illegal, s, at.vals, Table(s[Skip(parse, false, s, at.pos)]), rest.0, rest.1, r);
  }

  lemma MovedOver(a: octets, v: octet, rest: octets, need: nat)
    ensures a + [v] + rest == a + ([v] + rest)
    ensures need <= |rest| ==> a + [v] + rest[..need] == a + ([v] + rest)[..need + 1]
    ensures need <= |rest| ==> rest[need..] == ([v] + rest)[need + 1..]
  {
  }

  lemma TookNoMore(parse: ParseFlag, illegal: bool, s: octets, at: Scanned)
    requires InScan(s, at) && at.pads == 0 && (|at.vals| == 4 || !ValueAhead(parse, s, at.pos))
    ensures TookBody(parse, illegal, s, at, Scan(parse, illegal, s, at))
  {
    hide Scan, ScanStep, InAlphabet, RunsOut, TakePads, Table, Skip, Small;
    var vals := Body(parse, s, at.pos).0;
    if |at.vals| == 4 {
      ScanEnds(parse, illegal, s, at);
      hide Body;
      assert at.vals + vals[..0] == at.vals && vals[0..] == vals;
    } else {
      FreshRunsOut(parse, illegal, s, at);
      assert at.vals + [] == at.vals;
    }
  }

  lemma {:induction false} ScanBody(parse: ParseFlag, illegal: bool, s: octets, at: Scanned)
    requires InScan(s, at) && at.pads == 0
    ensures TookBody(parse, illegal, s, at, Scan(parse, illegal, s, at))
    decreases 4 - |at.vals|
  {
    hide Scan, ScanStep, InAlphabet, RunsOut, TakePads, Table, Skip, Small, TookBody, Took, Body, ValueAhead;
    if |at.vals| < 4 && ValueAhead(parse, s, at.pos) {
      var p := Skip(parse, false, s, at.pos);
      assert p < |s| by { ValueIsAhead(parse, s, at.pos); }
      var padStart := ScanToValue(parse, illegal, s, at);
      var next := Scanned(at.vals + [Table(s[p])], 0, padStart, p + 1);
      ScanBody(parse, illegal, s, next);
      TookOneMore(parse, illegal, s, at, next, Scan(parse, illegal, s, at));
    } else {
      TookNoMore(parse, illegal, s, at);
    }
  }

  lemma ValueIsAhead(parse: ParseFlag, s: octets, i: nat)
    requires i <= |s| && ValueAhead(parse, s, i)
    ensures Skip(parse, false, s, i) < |s| && InAlphabet(s[Skip(parse, false, s, i)])
  {
  }

  /** A quantum is the next four values, or what is left and the pads behind it. */
  lemma QuantumMeans(parse: ParseFlag, pad: PadFlag, s: octets, i: nat)
    requires i <= |s|
    ensures var q := NextQuantum(parse, pad == PadNo, s, i);
      var (vals, g) := Body(parse, s, i);
      if |vals| >= 4 then q.vals == vals[..4] && Body(parse, s, q.pos) == (vals[4..], g)
      else
        var pads := if PadsCount(pad, vals) then TakePads(parse, s, g, 4 - |vals|) else None;
        q == Quantum(vals, pads.Some?, if pads.Some? then pads.value else Skip(parse, PadsCount(pad, vals), s, g))
  {
    hide Scan, Body, TakePads, Skip;
    ScanBody(parse, pad == PadNo, s, Scanned([], 0, 0, i));
    var vals := Body(parse, s, i).0;
    assert [] + vals == vals && (|vals| >= 4 ==> [] + vals[..4] == vals[..4]);
  }

  lemma FourFewer(vals: octets)
    requires |vals| >= 4
    ensures Remainder(vals[4..]) == Remainder(vals) && |vals[4..]| % 4 == |vals| % 4
    ensures BytesOf(vals) == QuantumBytes(vals[..4]) + BytesOf(vals[4..])
  {
    hide QuantumBytes;
    SameRemainder(vals);
  }

  lemma SameRemainder(vals: octets)
    requires |vals| >= 4
    ensures Remainder(vals[4..]) == Remainder(vals) && |vals[4..]| % 4 == |vals| % 4
  {
    var n, r := |vals|, |vals| % 4;
    assert (n - 4) % 4 == r;
    assert vals[4..][n - 4 - r..] == vals[n - r..];
  }

  /** From any position, for every combination of the options. */
  lemma {:induction false} DecodeFromMeans(flags: Flags, s: octets, i: nat)
    requires i <= |s|
    ensures DecodeFrom(flags, s, i) == Meaning(flags, s, i)
    decreases |s| - i
  {
    hide NextQuantum, Body, TakePads, Skip, UnusedBits, QuantumBytes, BytesOf, Remainder;
    var (vals, g) := Body(flags.parse, s, i);
    if i == |s| {
      NothingLeft(flags, s);
    } else {
      QuantumMeans(flags.parse, flags.pad, s, i);
      var q := NextQuantum(flags.parse, flags.pad == PadNo, s, i);
      if |vals| >= 4 {
        QuantumAdvances(flags.parse, flags.pad == PadNo, s, i);
        DecodeFromMeans(flags, s, q.pos);
        FourFewer(vals);
      } else {
        FewerThanFour(vals);
      }
    }
  }

  lemma FewerThanFour(vals: octets)
    requires |vals| < 4
    ensures BytesOf(vals) == QuantumBytes(vals) && Remainder(vals) == vals
  {
    hide QuantumBytes;
    FewerRemain(vals);
  }

  lemma FewerRemain(vals: octets)
    requires |vals| < 4
    ensures Remainder(vals) == vals
  {
    var n := |vals|;
    assert n - n % 4 == 0;
    assert vals[0..] == vals;
  }

  lemma NothingLeft(flags: Flags, s: octets)
    ensures Meaning(flags, s, |s|) == Decoded(true, [], |s|)
  {
  }

  /** Decoding is what the description says, for every combination of the options and every string. */
  lemma DecodeMeans(flags: Flags, s: octets)
    ensures Decode(flags, s) == Meaning(flags, s, 0)
  {
    hide Meaning;
    DecodeFromMeans(flags, s, 0);
  }

  // ---------- which values are decoded ----------

  function ValueOf(ch: octet): octets {
    if InAlphabet(ch) then [Table(ch)] else []
  }

  /** The values of the characters from `i` to `g` that are in the alphabet. */
  function ValuesIn(s: octets, i: nat, g: nat): octets
    requires i <= g <= |s|
    decreases g - i
  {
    if i == g then [] else ValueOf(s[i]) + ValuesIn(s, i + 1, g)
  }

  /** From `i` to `g` there are only values and what is passed over; a value is last, and no other can
  be reached from there. */
  ghost predicate Reach(parse: ParseFlag, s: octets, i: nat, g: nat) {
    && i <= g <= |s|
    && (forall k :: i <= k < g ==> InAlphabet(s[k]) || Passes(parse, s[k]))
    && (g == i || InAlphabet(s[g - 1]))
    && !ValueAhead(parse, s, g)
  }

  lemma BodyOnValue(parse: ParseFlag, s: octets, i: nat)
    requires i < |s| && InAlphabet(s[i])
    ensures Body(parse, s, i) == ([Table(s[i])] + Body(parse, s, i + 1).0, Body(parse, s, i + 1).1)
  {
    hide Passes, InAlphabet, Table, Small, Body;
    NotPassed(parse, s[i]);
    assert Skip(parse, false, s, i) == i;
    BodyUnfolds(parse, s, i);
  }

  lemma BodyOnPassed(parse: ParseFlag, s: octets, i: nat)
    requires i < |s| && Passes(parse, s[i]) && ValueAhead(parse, s, i + 1)
    ensures Body(parse, s, i) == Body(parse, s, i + 1)
  {
    hide Passes, InAlphabet, Table, Small, Body;
    assert Skip(parse, false, s, i) == Skip(parse, false, s, i + 1);
    BodyUnfolds(parse, s, i);
    BodyUnfolds(parse, s, i + 1);
  }

  /** The values decoded are those up to there. */
  lemma {:induction false} BodyIs(parse: ParseFlag, s: octets, i: nat, g: nat)
    requires Reach(parse, s, i, g)
    ensures Body(parse, s, i) == (ValuesIn(s, i, g), g)
    decreases g - i
  {
    hide Passes, InAlphabet, Table, Small, Skip, ValueAhead;
    if i < g {
      BodyIs(parse, s, i + 1, g);
      hide Body, Reach;
      if InAlphabet(s[i]) {
        BodyOnValue(parse, s, i);
      } else {
        assert ValueAhead(parse, s, i + 1) by { ReachAhead(parse, s, i + 1, g); }
        BodyOnPassed(parse, s, i);
        assert [] + ValuesIn(s, i + 1, g) == ValuesIn(s, i + 1, g);
      }
    }
  }

  lemma {:induction false} ReachAhead(parse: ParseFlag, s: octets, i: nat, g: nat)
    requires Reach(parse, s, i, g) && i < g
    ensures ValueAhead(parse, s, i)
    decreases g - i
  {
    hide Passes, InAlphabet;
    if !InAlphabet(s[i]) {
      ReachAhead(parse, s, i + 1, g);
    } else {
      NotPassed(parse, s[i]);
    }
  }

  lemma ReachStep(parse: ParseFlag, s: octets, i: nat, p: nat, g: nat)
    requires i <= p < |s| && p == Skip(parse, false, s, i) && InAlphabet(s[p]) && Reach(parse, s, p + 1, g)
    ensures Reach(parse, s, i, g)
  {
    hide Passes, InAlphabet, ValueAhead;
  }

  lemma ReachNowhere(parse: ParseFlag, s: octets, i: nat)
    requires i <= |s| && !ValueAhead(parse, s, i)
    ensures Reach(parse, s, i, Body(parse, s, i).1)
  {
    hide Passes, InAlphabet, Table, Small, Skip;
  }

  lemma {:induction false} BodyReaches(parse: ParseFlag, s: octets, i: nat)
    requires i <= |s|
    ensures Reach(parse, s, i, Body(parse, s, i).1)
    decreases |s| - i
  {
    hide Passes, InAlphabet, Table, Small, Skip, Reach, Body;
    if ValueAhead(parse, s, i) {
      var p := Skip(parse, false, s, i);
      BodyUnfolds(parse, s, i);
      BodyReaches(parse, s, p + 1);
      ReachStep(parse, s, i, p, Body(parse, s, i).1);
    } else {
      ReachNowhere(parse, s, i);
    }
  }
}
