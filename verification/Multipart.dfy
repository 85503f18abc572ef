/** `MultipartStream`: parts and boundaries (RFC 2046), read as one string of bytes. */
module Multipart {
  import opened Bytes
  import opened HttpParsing

  const CONTENT_DISPOSITION: bytes := Ascii("Content-Disposition")
  const CONTENT_TYPE: bytes := Ascii("Content-Type")
  const DASHES: bytes := [45, 45]

  /** A seekable stream with fixed contents, which need not cooperate. */
  class Part {
    const content: bytes
    var pos: nat
    // What the last read answered.
    ghost var answer: StreamResult

    constructor (content: bytes)
      ensures this.content == content && pos == 0
    {
      this.content, pos, answer := content, 0, SR_BLOCK;
    }

    method Read(room: nat) returns (result: StreamResult, data: bytes)
      requires pos <= |content|
      modifies this
      ensures old(pos) <= pos <= |content| && data == content[old(pos)..pos] && |data| <= room
      ensures result != SR_SUCCESS ==> data == []
      ensures result == SR_SUCCESS && 0 < room ==> data != []
      ensures result == SR_EOS ==> pos == |content|
      ensures answer == result
    {
      answer := SR_SUCCESS;
      var n: nat := *;
      if 0 <= n <= room && pos + n <= |content| && (0 < n || room == 0) {
        pos := pos + n;
        return SR_SUCCESS, content[pos - n..pos];
      }
      result, data := *, [];
      if result == SR_SUCCESS || (result == SR_EOS && pos < |content|) {
        result := SR_BLOCK;
      }
      answer := result;
    }

    method GetSize() returns (ok: bool, size: nat)
      ensures ok ==> size == |content|
    {
      ok, size := *, |content|;
    }

    method GetAvailable() returns (ok: bool, size: nat)
      requires pos <= |content|
      ensures ok ==> size == |content| - pos
    {
      ok, size := *, |content| - pos;
    }

    method SetPosition(position: nat) returns (ok: bool)
      modifies this
      ensures if ok then position <= |content| && pos == position else pos == old(pos)
    {
      ok := *;
      ok := ok && position <= |content|;
      if ok { pos := position; }
    }
  }

  /** The parts one after the other. */
  ghost function Contents(parts: seq<Part>): bytes {
    if parts == [] then [] else Contents(parts[..|parts| - 1]) + parts[|parts| - 1].content
  }

  function HeaderText(name: bytes, value: bytes): bytes {
    if value == [] then [] else name + [COLON, SPACE] + value + CRLF
  }

  /** What AddPart writes in front of and including the data. */
  function PartText(first: bool, boundary: bytes, disposition: bytes, contentType: bytes, data: bytes): bytes {
    (if first then [] else CRLF) + DASHES + boundary + CRLF
    + HeaderText(CONTENT_DISPOSITION, disposition) + HeaderText(CONTENT_TYPE, contentType)
    + CRLF + data
  }

  function EndText(first: bool, boundary: bytes): bytes {
    (if first then [] else CRLF) + DASHES + boundary + DASHES + CRLF
  }

  class MultipartStream {
    const boundary: bytes
    var parts: seq<Part>
    var adding: bool
    var current: nat
    var position: nat

    constructor (boundary: bytes)
      ensures this.boundary == boundary && adding && parts == [] && current == 0 && position == 0
    {
      this.boundary := boundary;
      parts, adding, current, position := [], true, 0, 0;
    }

    /** Nothing has been read yet. */
    ghost predicate Adding()
      reads this, parts
    {
      && adding && current == 0 && position == 0
      && (forall i, j :: 0 <= i < j < |parts| ==> parts[i] != parts[j])
    }

    /** The parts from the current one on are in step with the position: this is one cursor in one
    string of bytes.  Parts before the current one may be anywhere. */
    ghost predicate InStep()
      reads this, parts
    {
      && !adding && current <= |parts|
      && (forall i, j :: 0 <= i < j < |parts| ==> parts[i] != parts[j])
      && (forall i :: 0 <= i < |parts| ==> parts[i].pos <= |parts[i].content|)
      && (forall i :: current < i < |parts| ==> parts[i].pos == 0)
      && position == |Contents(parts[..current])| + (if current < |parts| then parts[current].pos else 0)
    }

    /** `AddPart` with the data as a string. */
    method AddData(data: bytes, disposition: bytes, contentType: bytes) returns (ok: bool)
      requires Adding() || !adding
      modifies this`parts
      ensures ok <==> adding
      ensures if ok then Adding() && |parts| == |old(parts)| + 1 && parts[..|old(parts)|] == old(parts)
                && fresh(parts[|old(parts)|]) && parts[|old(parts)|].pos == 0
                && parts[|old(parts)|].content == PartText(old(parts) == [], boundary, disposition, contentType, data)
              else parts == old(parts)
    {
      if !adding {
        return false;
      }
      var part := new Part(PartText(parts == [], boundary, disposition, contentType, data));
      parts := parts + [part];
      return true;
    }

    /** `AddPart` with the data as a stream of its own. */
    method AddStream(stream: Part, disposition: bytes, contentType: bytes) returns (ok: bool)
      requires Adding() || !adding
      requires stream !in parts
      modifies this`parts
      ensures ok <==> adding
      ensures if ok then Adding() && |parts| == |old(parts)| + 2 && parts[..|old(parts)|] == old(parts)
                && parts[|old(parts)|].content == PartText(old(parts) == [], boundary, disposition, contentType, [])
                && parts[|old(parts)|].pos == 0 && parts[|old(parts)| + 1] == stream
              else parts == old(parts)
    {
      ok := AddData([], disposition, contentType);
      if ok {
        parts := parts + [stream];
      }
    }

    /** `EndParts`.  From here on reading is in step exactly if every part was handed over at its
    start. */
    method EndParts()
      requires Adding()
      requires forall i :: 0 <= i < |parts| ==> parts[i].pos <= |parts[i].content|
      modifies this`parts, this`adding
      ensures !adding && |parts| == |old(parts)| + 1 && parts[..|old(parts)|] == old(parts)
      ensures parts[|old(parts)|].content == EndText(old(parts) == [], boundary)
      ensures InStep() && position == 0 <==> forall i :: 0 <= i < |old(parts)| ==> parts[i].pos == 0
    {
      var part := new Part(EndText(parts == [], boundary));
      parts := parts + [part];
      adding := false;
      assert parts[..0] == [];
    }

    /** `GetPartSize`, the size AddPart adds. */
    function GetPartSize(data: bytes, disposition: bytes, contentType: bytes): (size: nat)
      reads this`parts
      ensures size == |PartText(parts == [], boundary, disposition, contentType, data)|
    {
      (if parts != [] then 2 else 0) + |boundary| + 4
      + (if disposition != [] then |CONTENT_DISPOSITION| + 2 + |disposition| + 2 else 0)
      + (if contentType != [] then |CONTENT_TYPE| + 2 + |contentType| + 2 else 0)
      + 2 + |data|
    }

    function GetEndPartSize(): (size: nat)
      reads this`parts
      ensures size == |EndText(parts == [], boundary)|
    {
      (if parts != [] then 2 else 0) + |boundary| + 6
    }

    /** `result` is what the current part answered last. */
    ghost predicate Answered(result: StreamResult)
      reads this`parts, this`current, parts
    {
      current < |parts| && parts[current].answer == result
    }

    /** A read of the current part. */
    method ReadCurrent(room: nat) returns (result: StreamResult, data: bytes)
      requires InStep() && current < |parts|
      modifies this`position, parts
      ensures InStep() && position == old(position) + |data| <= |Contents(parts)| && |data| <= room
      ensures data == Contents(parts)[old(position)..position]
      ensures result != SR_SUCCESS ==> data == []
      ensures result == SR_SUCCESS && 0 < room ==> data != []
      ensures result == SR_EOS ==> parts[current].pos == |parts[current].content|
      ensures Answered(result)
    {
      hide Contents;
      ghost var start, offset := parts[current].pos, |Contents(parts[..current])|;
      result, data := parts[current].Read(room);
      PieceOfContents(parts, current, start, parts[current].pos);
      if result == SR_SUCCESS {
        position := position + |data|;
      }
      assert position == offset + parts[current].pos;
    }

    method NextPart()
      requires InStep() && current < |parts| && parts[current].pos == |parts[current].content|
      modifies this`current
      ensures InStep() && current == old(current) + 1
    {
      hide Contents;
      OnePartOn(parts, current);
      ghost var k := current;
      current := current + 1;
      assert parts[..current] == parts[..k + 1];
    }

    /** `Read`: the next bytes of the one string, and its end only at the end. */
    method Read(room: nat) returns (result: StreamResult, data: bytes)
      requires InStep() || adding
      modifies this`current, this`position, parts
      ensures adding ==> result == SR_BLOCK && data == [] && position == old(position)
      ensures !adding ==> InStep()
      ensures !adding ==> position == old(position) + |data| <= |Contents(parts)| && |data| <= room
      ensures !adding ==> data == Contents(parts)[old(position)..position]
      ensures !adding && result == SR_EOS ==> position == |Contents(parts)|
      ensures !adding && result != SR_EOS ==> Answered(result)
      ensures result != SR_SUCCESS ==> data == []
      ensures result == SR_SUCCESS && 0 < room ==> data != []
    {
      if adding {
        return SR_BLOCK, [];
      }
      hide Contents, MultipartStream.InStep;
      WithinContents();
      while current < |parts|
        invariant InStep() && position == old(position) <= |Contents(parts)|
        decreases |parts| - current
      {
        result, data := ReadCurrent(room);
        if result != SR_EOS {
          return;
        }
        NextPart();
      }
      assert parts[..current] == parts;
      return SR_EOS, [];
    }

    lemma WithinContents()
      requires InStep()
      ensures position <= |Contents(parts)|
    {
      if current < |parts| {
        OnePartOn(parts, current);
        PrefixOf(parts, current + 1);
      } else {
        assert parts[..current] == parts;
      }
    }

    /** `GetAvailable`: the distance to the end. */
    method GetAvailable() returns (ok: bool, size: nat)
      requires InStep() || adding
      ensures adding ==> !ok
      ensures ok ==> size == |Contents(parts)| - position
    {
      size := 0;
      if adding {
        return false, 0;
      }
      hide Contents;
      assert parts[..current] + [] == parts[..current];
      var i := current;
      while i < |parts|
        invariant current <= i <= |parts|
        invariant size == |Contents(parts[..i])| - |Contents(parts[..current])|
                          - (if current < i then parts[current].pos else 0)
      {
        OnePartOn(parts, i);
        var partSize;
        ok, partSize := parts[i].GetAvailable();
        if !ok {
          return;
        }
        size := size + partSize;
        i := i + 1;
      }
      assert parts[..|parts|] == parts;
      ok := true;
    }

    /** `GetSize`. */
    method GetSize() returns (ok: bool, size: nat)
      ensures ok ==> size == |Contents(parts)|
    {
      size := 0;
      assert Contents(parts[..0]) == [];
      hide Contents;
      for i := 0 to |parts|
        invariant size == |Contents(parts[..i])|
      {
        OnePartOn(parts, i);
        var partSize;
        ok, partSize := parts[i].GetSize();
        if !ok {
          return;
        }
        size := size + partSize;
      }
      assert parts[..|parts|] == parts;
      ok := true;
    }

    /** The parts behind `i` that have been read from go back to their starts. */
    method RewindBehind(i: nat) returns (ok: bool)
      requires InStep() && i < |parts|
      modifies parts
      ensures forall k :: 0 <= k < |parts| ==> parts[k].pos <= |parts[k].content|
      ensures forall k :: current < k < |parts| ==> parts[k].pos == 0
      ensures ok ==> forall k :: i < k < |parts| ==> parts[k].pos == 0
    {
      var end := if |parts| < current + 1 then |parts| else current + 1;
      var j := i + 1;
      while j < end
        invariant i < j && j <= |parts|
        invariant forall k :: 0 <= k < |parts| ==> parts[k].pos <= |parts[k].content|
        invariant forall k :: 0 <= k < |parts| && (current < k || i < k < j) ==> parts[k].pos == 0
      {
        ok := parts[j].SetPosition(0);
        if !ok {
          return;
        }
        j := j + 1;
      }
      ok := true;
    }

    /** The position in the current part. */
    ghost function AtCurrent(): nat
      reads this`parts, this`current, parts
    {
      if current < |parts| then parts[current].pos else 0
    }

    method SeekInto(i: nat, offset: nat, target: nat) returns (ok: bool)
      requires InStep() && i < |parts|
      requires offset == |Contents(parts[..i])| <= target <= offset + |parts[i].content|
      modifies this`current, this`position, parts
      ensures ok ==> InStep()
      ensures !ok ==> (InStep() <==> AtCurrent() == old(AtCurrent())) && current == old(current)
      ensures position == if ok then target else old(position)
    {
      hide Contents;
      ok := RewindBehind(i);
      if !ok {
        return;
      }
      ok := parts[i].SetPosition(target - offset);
      if !ok {
        return;
      }
      current := i;
      position := target;
    }

    /** The part that holds the byte at `target`, if a part does. */
    method FindPart(target: nat) returns (found: bool, i: nat, offset: nat, ghost refused: bool)
      ensures found ==> i < |parts| && offset == |Contents(parts[..i])| <= target < offset + |parts[i].content|
      ensures !refused ==> (found <==> target < |Contents(parts)|)
      ensures refused ==> !found
    {
      found, refused, offset, i := false, false, 0, 0;
      assert Contents(parts[..0]) == [];
      hide Contents;
      while i < |parts|
        invariant i <= |parts| && offset == |Contents(parts[..i])| <= target
      {
        OnePartOn(parts, i);
        PrefixOf(parts, i + 1);
        var ok, size := parts[i].GetSize();
        if !ok {
          refused := true;
          return;
        }
        if offset + size > target {
          found := true;
          return;
        }
        offset := offset + size;
        i := i + 1;
      }
      assert parts[..i] == parts;
    }

    /** `SetPosition`: unless a part refuses to cooperate, it succeeds exactly for the positions of
    bytes (not for the one at the end), and the cursor is there.  After a refusal the stream is still
    in step exactly if the position in the current part is what it was. */
    method SetPosition(target: nat) returns (ok: bool, ghost refused: bool)
      requires InStep() || adding
      modifies this`current, this`position, parts
      ensures adding ==> !ok
      ensures !adding && !refused ==> InStep()
      ensures !adding && refused ==> (InStep() <==> AtCurrent() == old(AtCurrent())) && current == old(current)
      ensures !adding && !refused ==> (ok <==> target < |Contents(parts)|)
      ensures refused ==> !ok
      ensures position == if ok then target else old(position)
    {
      refused := false;
      if adding {
        return false, refused;
      }
      hide Contents, MultipartStream.InStep;
      var found, i, offset;
      found, i, offset, refused := FindPart(target);
      if !found {
        return false, refused;
      }
      ok := SeekInto(i, offset, target);
      refused := !ok;
    }
  }

  lemma OnePartOn(parts: seq<Part>, k: nat)
    requires k < |parts|
    ensures Contents(parts[..k + 1]) == Contents(parts[..k]) + parts[k].content
  {
    assert parts[..k + 1][..k] == parts[..k];
  }

  lemma {:induction false} PrefixOf(parts: seq<Part>, k: nat)
    requires k <= |parts|
    ensures Contents(parts[..k]) <= Contents(parts)
    decreases |parts| - k
  {
    if k == |parts| {
      assert parts[..k] == parts;
    } else {
      OnePartOn(parts, k);
      PrefixOf(parts, k + 1);
    }
  }

  /** Bytes of a part are bytes of the whole. */
  lemma PieceOfContents(parts: seq<Part>, k: nat, from: nat, to: nat)
    requires k < |parts| && from <= to <= |parts[k].content|
    ensures var offset := |Contents(parts[..k])|;
      offset + to <= |Contents(parts)| && Contents(parts)[offset + from..offset + to] == parts[k].content[from..to]
  {
    OnePartOn(parts, k);
    PrefixOf(parts, k + 1);
    var all, upTo := Contents(parts), Contents(parts[..k + 1]);
    var offset := |Contents(parts[..k])|;
    assert all[..|upTo|] == upTo;
    assert all[offset + from..offset + to] == upTo[offset + from..offset + to];
  }

  // ---------- what a reader of the body finds ----------

  datatype Section = Section(disposition: bytes, contentType: bytes, data: bytes)

  /** The parts and the end, as they are added. */
  function Texts(boundary: bytes, sections: seq<Section>): (r: seq<bytes>)
    ensures |r| == |sections| + 1
  {
    seq(|sections| + 1, i requires 0 <= i <= |sections| =>
      if i < |sections| then
        PartText(i == 0, boundary, sections[i].disposition, sections[i].contentType, sections[i].data)
      else EndText(i == 0, boundary))
  }

  /** What stands between two delimiters: the headers of a part, an empty line, and its data. */
  function Between(s: Section): bytes {
    Ascii("\r\n")
    + (if s.disposition == [] then [] else Ascii("Content-Disposition: ") + s.disposition + Ascii("\r\n"))
    + (if s.contentType == [] then [] else Ascii("Content-Type: ") + s.contentType + Ascii("\r\n"))
    + Ascii("\r\n") + s.data
  }

  /** The delimiter of section 5.1.1 of RFC 2046. */
  function Delimiter(boundary: bytes): bytes {
    Ascii("\r\n--") + boundary
  }

  ghost predicate OccursAt(d: bytes, text: bytes, k: nat) {
    k + |d| <= |text| && text[k..k + |d|] == d
  }

  /** The first place from `i` on where `d` occurs. */
  function Find(text: bytes, d: bytes, i: nat): (r: Option<nat>)
    requires i <= |text|
    ensures r.Some? ==> i <= r.value && OccursAt(d, text, r.value)
    decreases |text| - i
  {
    if i + |d| > |text| then None
    else if text[i..i + |d|] == d then Some(i)
    else if i == |text| then None
    else Find(text, d, i + 1)
  }

  /** The pieces between the delimiters. */
  function Split(text: bytes, d: bytes): seq<bytes>
    requires d != []
    decreases |text|
  {
    match Find(text, d, 0)
    case None => [text]
    case Some(k) => [text[..k]] + Split(text[k + |d|..], d)
  }

  function Join(pieces: seq<bytes>, d: bytes): bytes {
    if pieces == [] then []
    else if |pieces| == 1 then pieces[0]
    else pieces[0] + (d + Join(pieces[1..], d))
  }

  ghost predicate Free(d: bytes, piece: bytes) {
    forall k: nat :: !OccursAt(d, piece, k)
  }

  lemma NotBefore(piece: bytes, d: bytes, rest: bytes, i: nat)
    requires d != [] && d[0] !in d[1..] && Free(d, piece) && i < |piece|
    ensures var text := piece + (d + rest); i + |d| <= |text| && text[i..i + |d|] != d
  {
    var text := piece + (d + rest);
    if i + |d| <= |piece| {
      assert piece[i..i + |d|] == text[i..i + |d|];
      assert !OccursAt(d, piece, i);
    } else {
      var j := |piece| - i;
      assert text[i..i + |d|][j] == text[i + j] == d[0];
      assert d[1..][j - 1] == d[j];
    }
  }

  /** A delimiter whose first byte occurs in it only once is found where it was put. */
  lemma {:induction false} FindsFirst(piece: bytes, d: bytes, rest: bytes, i: nat)
    requires d != [] && d[0] !in d[1..] && Free(d, piece) && i <= |piece|
    ensures Find(piece + (d + rest), d, i) == Some(|piece|)
    decreases |piece| - i
  {
    var text := piece + (d + rest);
    if i == |piece| {
      assert text[i..i + |d|] == d;
    } else {
      NotBefore(piece, d, rest, i);
      FindsFirst(piece, d, rest, i + 1);
    }
  }

  lemma {:induction false} FindsNothing(piece: bytes, d: bytes, i: nat)
    requires d != [] && Free(d, piece) && i <= |piece|
    ensures Find(piece, d, i) == None
    decreases |piece| - i
  {
    if i + |d| <= |piece| {
      assert !OccursAt(d, piece, i);
      FindsNothing(piece, d, i + 1);
    }
  }

  lemma {:induction false} SplitJoined(pieces: seq<bytes>, d: bytes)
    requires pieces != [] && d != [] && d[0] !in d[1..]
    requires forall i :: 0 <= i < |pieces| ==> Free(d, pieces[i])
    ensures Split(Join(pieces, d), d) == pieces
  {
    hide Free, Find;
    if |pieces| == 1 {
      FindsNothing(pieces[0], d, 0);
    } else {
      var rest := Join(pieces[1..], d);
      FindsFirst(pieces[0], d, rest, 0);
      SplitJoined(pieces[1..], d);
      var text := pieces[0] + (d + rest);
      assert text[..|pieces[0]|] == pieces[0] && text[|pieces[0]| + |d|..] == rest;
      assert [pieces[0]] + pieces[1..] == pieces;
    }
  }

  lemma {:induction false} JoinSnoc(pieces: seq<bytes>, last: bytes, d: bytes)
    requires pieces != []
    ensures Join(pieces + [last], d) == Join(pieces, d) + d + last
  {
    if |pieces| == 1 {
      assert (pieces + [last])[1..] == [last];
    } else {
      JoinSnoc(pieces[1..], last, d);
      assert (pieces + [last])[1..] == pieces[1..] + [last];
      Regroup(pieces[0], d, Join(pieces[1..], d), last);
    }
  }

  lemma Regroup(a: bytes, d: bytes, b: bytes, last: bytes)
    ensures a + (d + (b + d + last)) == a + (d + b) + d + last
  {
  }

  lemma LiteralsAre()
    ensures Ascii("\r\n") == CRLF && Ascii("\r\n--") == CRLF + DASHES && Ascii("--\r\n") == DASHES + CRLF
    ensures Ascii("Content-Disposition: ") == CONTENT_DISPOSITION + [COLON, SPACE]
    ensures Ascii("Content-Type: ") == CONTENT_TYPE + [COLON, SPACE]
  {
  }

  lemma BetweenIs(s: Section)
    ensures Between(s) == CRLF + (HeaderText(CONTENT_DISPOSITION, s.disposition)
                                  + HeaderText(CONTENT_TYPE, s.contentType) + CRLF + s.data)
  {
    LiteralsAre();
    hide Ascii;
    Reassociate(CRLF, HeaderText(CONTENT_DISPOSITION, s.disposition), HeaderText(CONTENT_TYPE, s.contentType), CRLF,
                s.data);
  }

  lemma Reassociate(a: bytes, b: bytes, c: bytes, d: bytes, e: bytes)
    ensures a + b + c + d + e == a + (b + c + d + e)
  {
  }

  /** Behind a line end, each part is a delimiter and what follows it. */
  lemma PartIs(s: Section, boundary: bytes)
    ensures PartText(false, boundary, s.disposition, s.contentType, s.data) == Delimiter(boundary) + Between(s)
    ensures Ascii("\r\n") + PartText(true, boundary, s.disposition, s.contentType, s.data)
            == Delimiter(boundary) + Between(s)
  {
    LiteralsAre();
    BetweenIs(s);
    hide Ascii, Between, HeaderText;
    var headers := HeaderText(CONTENT_DISPOSITION, s.disposition);
    var type_ := HeaderText(CONTENT_TYPE, s.contentType);
    PartAssociates(CRLF, DASHES, boundary, headers, type_, s.data);
  }

  lemma PartAssociates(nl: bytes, dashes: bytes, boundary: bytes, a: bytes, b: bytes, data: bytes)
    ensures nl + dashes + boundary + nl + a + b + nl + data == nl + dashes + boundary + (nl + (a + b + nl + data))
    ensures nl + ([] + dashes + boundary + nl + a + b + nl + data)
            == nl + dashes + boundary + (nl + (a + b + nl + data))
  {
  }

  lemma EndIs(boundary: bytes)
    ensures EndText(false, boundary) == Delimiter(boundary) + Ascii("--\r\n")
    ensures Ascii("\r\n") + EndText(true, boundary) == Delimiter(boundary) + Ascii("--\r\n")
  {
    LiteralsAre();
    hide Ascii;
  }

  /** What is found between the delimiters: nothing, the parts, and what ends the body. */
  function Pieces(sections: seq<Section>): (r: seq<bytes>)
    ensures |r| == |sections| + 2
  {
    seq(|sections| + 2, i requires 0 <= i < |sections| + 2 =>
      if i == 0 then [] else if i <= |sections| then Between(sections[i - 1]) else Ascii("--\r\n"))
  }

  lemma TextIs(boundary: bytes, sections: seq<Section>, k: nat)
    requires k <= |sections|
    ensures (if k == 0 then Ascii("\r\n") else []) + Texts(boundary, sections)[k]
            == Delimiter(boundary) + Pieces(sections)[k + 1]
  {
    hide Ascii, Between, PartText, EndText, Delimiter;
    if k < |sections| {
      PartIs(sections[k], boundary);
    } else {
      EndIs(boundary);
    }
    assert [] + Texts(boundary, sections)[k] == Texts(boundary, sections)[k];
  }

  /** The body is the pieces with delimiters between them. */
  lemma {:induction false} BodyIsJoined(boundary: bytes, sections: seq<Section>, k: nat)
    requires k <= |sections|
    ensures Ascii("\r\n") + Concat(Texts(boundary, sections)[..k + 1])
            == Join(Pieces(sections)[..k + 2], Delimiter(boundary))
  {
    hide Ascii, Delimiter, Concat, Join, Texts, Pieces;
    var texts, pieces, d := Texts(boundary, sections), Pieces(sections), Delimiter(boundary);
    TextIs(boundary, sections, k);
    assert texts[..k + 1] == texts[..k] + [texts[k]] && pieces[..k + 2] == pieces[..k + 1] + [pieces[k + 1]];
    ConcatSnoc(texts[..k], texts[k]);
    JoinSnoc(pieces[..k + 1], pieces[k + 1], d);
    if k == 0 {
      FirstPiece(sections, d);
      assert Concat([]) == [] by { ConcatNothing(); }
      assert texts[..0] == [];
      assert Ascii("\r\n") + ([] + texts[0]) == Ascii("\r\n") + texts[0];
      assert [] + d + pieces[1] == d + pieces[1];
    } else {
      BodyIsJoined(boundary, sections, k - 1);
      Glue(Ascii("\r\n"), Concat(texts[..k]), d, pieces[k + 1], texts[k]);
    }
  }

  lemma FirstPiece(sections: seq<Section>, d: bytes)
    ensures Join(Pieces(sections)[..1], d) == []
  {
    assert Pieces(sections)[..1] == [[]];
  }

  lemma ConcatNothing()
    ensures Concat([]) == []
  {
  }

  lemma Glue(nl: bytes, before: bytes, d: bytes, piece: bytes, text: bytes)
    requires [] + text == d + piece
    ensures nl + (before + text) == nl + before + d + piece
  {
    assert text == d + piece;
  }

  /** The round trip of a body: if the boundary has no CR and the delimiter is in no part, whoever splits
  the body at the delimiter finds the parts, each with its headers and its data. */
  lemma SplitsBack(boundary: bytes, sections: seq<Section>)
    requires CR !in boundary
    requires forall i :: 0 <= i < |sections| ==> Free(Delimiter(boundary), Between(sections[i]))
    ensures Split(Ascii("\r\n") + Concat(Texts(boundary, sections)), Delimiter(boundary)) == Pieces(sections)
  {
    hide Split, Join, Concat, Texts, Delimiter, Ascii, Free, Between;
    var n := |sections|;
    DelimiterStarts(boundary);
    ShortIsFree(boundary);
    BodyIsJoined(boundary, sections, n);
    assert Texts(boundary, sections)[..n + 1] == Texts(boundary, sections);
    assert Pieces(sections)[..n + 2] == Pieces(sections);
    SplitJoined(Pieces(sections), Delimiter(boundary));
  }

  lemma DelimiterStarts(boundary: bytes)
    requires CR !in boundary
    ensures var d := Delimiter(boundary); d != [] && d[0] == CR && d[0] !in d[1..]
  {
    LiteralsAre();
    hide Ascii;
    assert Delimiter(boundary)[1..] == [LF] + DASHES + boundary;
  }

  lemma ShortIsFree(boundary: bytes)
    ensures Free(Delimiter(boundary), []) && Free(Delimiter(boundary), Ascii("--\r\n"))
  {
    LiteralsAre();
    hide Ascii;
    var d, end := Delimiter(boundary), DASHES + CRLF;
    assert |d| >= 4 && d[0] == CR;
    forall k: nat
      ensures !OccursAt(d, end, k)
    {
      if k + |d| <= |end| {
        assert end[k..k + |d|][0] == end[0] == 45;
      }
    }
  }

  /** What the stream holds once the parts and the end have been added is that body. */
  lemma {:induction false} ContentsAre(parts: seq<Part>, texts: seq<bytes>)
    requires |parts| == |texts| && forall i :: 0 <= i < |parts| ==> parts[i].content == texts[i]
    ensures Contents(parts) == Concat(texts)
  {
    if parts != [] {
      ContentsAre(parts[..|parts| - 1], texts[..|parts| - 1]);
    }
  }
}
