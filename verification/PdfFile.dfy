/** The PDF writer of scripts/e2e_sgraph_real_path.py: objects, then a cross-reference table of the
    offsets recorded on the way, then a trailer that points at the table.  Its partner is a reader
    that follows the file's own pointers (sections 7.5.4 and 7.5.5 of ISO 32000-1). */
module PdfFile {
  import opened Common
  import opened PdfText
  import opened Decimal

  const NEWLINE: Bytes := [10]

  function Numeral(n: nat): Bytes {
    Ascii(Digits(n))
  }

  // ---------------------------------------------------------------- the file, piece by piece

  function Preamble(): Bytes {
    Latin1("%PDF-1.4\n%") + [0xe2, 0xe3, 0xcf, 0xd3] + NEWLINE
  }

  function ObjectHeader(number: nat): Bytes {
    Numeral(number) + Latin1(" 0 obj\n")
  }

  function ObjectBytes(number: nat, content: Bytes): Bytes {
    ObjectHeader(number) + content + LineEnd(content) + Latin1("endobj\n")
  }

  // The newline an object gets unless it ends with one.
  function LineEnd(content: Bytes): Bytes {
    if content != [] && content[|content| - 1] == 10 then [] else NEWLINE
  }

  function XrefKeyword(): (keyword: Bytes)
    ensures |keyword| == 5
  {
    Latin1("xref\n")
  }

  // The preamble and the objects, numbered from 1.
  function Body(objects: seq<Bytes>): Bytes {
    if objects == [] then Preamble()
    else Body(objects[..|objects| - 1]) + ObjectBytes(|objects|, objects[|objects| - 1])
  }

  // Where each object starts.
  function Offsets(objects: seq<Bytes>): (offsets: seq<nat>)
    ensures |offsets| == |objects|
  {
    if objects == [] then []
    else Offsets(objects[..|objects| - 1]) + [|Body(objects[..|objects| - 1])|]
  }

  function Entry(offset: nat): Bytes {
    Ascii(Padded(offset)) + Latin1(" 00000 n \n")
  }

  function Entries(offsets: seq<nat>): Bytes {
    if offsets == [] then [] else Entries(offsets[..|offsets| - 1]) + Entry(offsets[|offsets| - 1])
  }

  function SectionHeader(count: nat): Bytes {
    Latin1("0 ") + Numeral(count)
  }

  function FreeEntry(): (entry: Bytes)
    ensures |entry| == 20
  {
    Latin1("0000000000 65535 f \n")
  }

  function Trailer(count: nat): Bytes {
    Latin1("trailer\n<< /Size ") + Numeral(count) + Latin1(" /Root 1 0 R >>\n")
  }

  function StartXref(position: nat): Bytes {
    Latin1("startxref\n") + Numeral(position) + Latin1("\n%%EOF\n")
  }

  // Pieces one after the other.
  function Joined(pieces: seq<Bytes>): Bytes {
    if pieces == [] then [] else Joined(pieces[..|pieces| - 1]) + pieces[|pieces| - 1]
  }

  function Pdf(objects: seq<Bytes>): Bytes {
    Joined([ Body(objects),
             XrefKeyword(), SectionHeader(|objects| + 1), NEWLINE, FreeEntry(), Entries(Offsets(objects)),
             Trailer(|objects| + 1), StartXref(|Body(objects)|) ])
  }

  lemma JoinedFourMore(pieces: seq<Bytes>, e: Bytes, f: Bytes, g: Bytes, h: Bytes)
    ensures Joined(pieces + [e, f, g, h]) == Joined(pieces) + e + f + g + h
  {
    assert pieces + [e, f, g, h] == pieces + [e] + [f] + [g] + [h];
    JoinedNext(pieces, e);
    JoinedNext(pieces + [e], f);
    JoinedNext(pieces + [e] + [f], g);
    JoinedNext(pieces + [e] + [f] + [g], h);
  }

  lemma JoinedEight(a: Bytes, b: Bytes, c: Bytes, d: Bytes, e: Bytes, f: Bytes, g: Bytes, h: Bytes)
    ensures Joined([a, b, c, d, e, f, g, h]) == a + b + c + d + e + f + g + h
  {
    JoinedFourMore([], a, b, c, d);
    assert [] + [a, b, c, d] == [a, b, c, d] && [] + a == a;
    JoinedFourMore([a, b, c, d], e, f, g, h);
    assert [a, b, c, d] + [e, f, g, h] == [a, b, c, d, e, f, g, h];
  }

  lemma {:induction false} JoinedNext(pieces: seq<Bytes>, piece: Bytes)
    ensures Joined(pieces + [piece]) == Joined(pieces) + piece
  {
    assert (pieces + [piece])[..|pieces|] == pieces;
  }

  // ---------------------------------------------------------------- the writer

  lemma Regroup(out: Bytes, a: Bytes, b: Bytes, c: Bytes, d: Bytes)
    ensures out + a + b + c + d == out + (a + b + c + d)
    ensures c == [] ==> out + a + b + d == out + (a + b + c + d)
  {
  }

  lemma BodyGrows(objects: seq<Bytes>, i: nat)
    requires i < |objects|
    ensures Body(objects[..i + 1]) == Body(objects[..i]) + ObjectBytes(i + 1, objects[i])
  {
    assert objects[..i + 1][..i] == objects[..i];
  }

  lemma OffsetsGrow(objects: seq<Bytes>, i: nat)
    requires i < |objects|
    ensures Offsets(objects[..i + 1]) == Offsets(objects[..i]) + [|Body(objects[..i])|]
  {
    assert objects[..i + 1][..i] == objects[..i];
  }

  lemma Associate(a: Bytes, b: Bytes, c: Bytes)
    ensures a + b + c == a + (b + c)
  {
  }

  /** The first loop of `_build_pdf_bytes`: the objects, and where each one starts. */
  method WriteBody(objects: seq<Bytes>) returns (out: Bytes, offsets: seq<nat>)
    ensures out == Body(objects) && offsets == Offsets(objects)
  {
    out := Preamble();
    offsets := [];
    for i := 0 to |objects|
      invariant out == Body(objects[..i])
      invariant offsets == Offsets(objects[..i])
    {
      BodyGrows(objects, i);
      OffsetsGrow(objects, i);
      Regroup(out, ObjectHeader(i + 1), objects[i], LineEnd(objects[i]), Latin1("endobj\n"));
      offsets := offsets + [|out|];
      out := out + ObjectHeader(i + 1);
      out := out + objects[i];
      if !(objects[i] != [] && objects[i][|objects[i]| - 1] == 10) {
        out := out + NEWLINE;
      }
      out := out + Latin1("endobj\n");
    }
    assert objects[..|objects|] == objects;
  }

  /** `_build_pdf_bytes` for any list of objects: the body, then table and trailer. */
  method WriteObjects(objects: seq<Bytes>) returns (out: Bytes)
    ensures out == Pdf(objects)
  {
    var offsets;
    out, offsets := WriteBody(objects);
    var xref := |out|;
    out := out + XrefKeyword() + SectionHeader(|objects| + 1) + NEWLINE;
    out := out + FreeEntry();
    ghost var table := out;
    for i := 0 to |offsets|
      invariant out == table + Entries(offsets[..i])
    {
      assert offsets[..i + 1][..i] == offsets[..i];
      Associate(table, Entries(offsets[..i]), Entry(offsets[i]));
      out := out + Entry(offsets[i]);
    }
    assert offsets[..|offsets|] == offsets;
    out := out + Trailer(|objects| + 1);
    out := out + StartXref(xref);
    JoinedEight(Body(objects), XrefKeyword(), SectionHeader(|objects| + 1), NEWLINE, FreeEntry(),
                Entries(Offsets(objects)), Trailer(|objects| + 1), StartXref(xref));
  }

  // The content stream as an object.
  function ContentObject(text: string): Bytes {
    var stream := ContentStream(text);
    Latin1("<< /Length ") + Numeral(|stream|) + Latin1(" >>\nstream\n") + stream + Latin1("\nendstream")
  }

  // The five objects of a one-page document.
  function PageObjects(text: string): seq<Bytes> {
    [ Latin1("<< /Type /Catalog /Pages 2 0 R >>"),
      Latin1("<< /Type /Pages /Kids [3 0 R] /Count 1 >>"),
      Latin1("<< /Type /Page /Parent 2 0 R /MediaBox [0 0 595 842] "
             + "/Resources << /Font << /F1 5 0 R >> >> /Contents 4 0 R >>"),
      ContentObject(text),
      Latin1("<< /Type /Font /Subtype /Type1 /BaseFont /Helvetica >>") ]
  }

  /** `_build_pdf_bytes` */
  method BuildPdfBytes(text: string) returns (out: Bytes)
    ensures out == Pdf(PageObjects(text))
  {
    out := WriteObjects(PageObjects(text));
  }

  // ---------------------------------------------------------------- the reader

  // The piece stands in the data at a position.
  predicate At(data: Bytes, position: nat, piece: Bytes) {
    position + |piece| <= |data| && data[position..position + |piece|] == piece
  }

  // Where the run of digits that ends at a position starts.
  function DigitsStart(data: Bytes, end: nat): (start: nat)
    requires end <= |data|
    ensures start <= end
  {
    if end > 0 && IsDigit(data[end - 1]) then DigitsStart(data, end - 1) else end
  }

  // The first newline from a position on.
  function FindNewline(data: Bytes, position: nat): Option<nat>
    decreases |data| - position
  {
    if position >= |data| then None
    else if data[position] == 10 then Some(position)
    else FindNewline(data, position + 1)
  }

  /** The number in front of the end-of-file marker. */
  function ReadStartXref(data: Bytes): Option<nat> {
    var marker := Latin1("\n%%EOF\n");
    if |data| < |marker| || data[|data| - |marker|..] != marker then None
    else
      var end := |data| - |marker|;
      ParseAscii(data[DigitsStart(data, end)..end])
  }

  /** The position of the table's entry for an object: past the keyword and the section header,
      twenty bytes an entry. */
  function EntryPosition(data: Bytes, number: nat): Option<nat> {
    match ReadStartXref(data)
    case None => None
    case Some(xref) =>
      if !At(data, xref, XrefKeyword()) then None
      else
        match FindNewline(data, xref + 5)
        case None => None
        case Some(newline) => Some(newline + 1 + 20 * number)
  }

  /** Where the table says an object is. */
  function LocateObject(data: Bytes, number: nat): Option<nat> {
    match EntryPosition(data, number)
    case None => None
    case Some(position) =>
      if position + 20 <= |data| && At(data, position + 10, Latin1(" 00000 n \n"))
      then ParseAscii(data[position..position + 10])
      else None
  }

  // ---------------------------------------------------------------- the reader reads the writer

  lemma AtMiddle(before: Bytes, piece: Bytes, after: Bytes)
    ensures At(before + piece + after, |before|, piece)
  {
  }

  lemma AtWithin(data: Bytes, position: nat, piece: Bytes, k: nat, part: Bytes)
    requires At(data, position, piece) && At(piece, k, part)
    ensures At(data, position + k, part)
  {
    SliceOfSlice(data, position, position + |piece|, k, k + |part|);
  }

  lemma SliceOfSlice(data: Bytes, i: nat, j: nat, k: nat, n: nat)
    requires i <= j <= |data| && k <= n <= j - i
    ensures data[i..j][k..n] == data[i + k..i + n]
  {
    var a, b := data[i..j][k..n], data[i + k..i + n];
    assert |a| == |b| && forall t :: 0 <= t < |a| ==> a[t] == b[t];
  }

  lemma PrefixCarries(whole: Bytes, prefix: Bytes, k: nat, part: Bytes)
    requires |prefix| <= |whole| && whole[..|prefix|] == prefix && At(prefix, k, part)
    ensures At(whole, k, part)
  {
    SliceOfSlice(whole, 0, |prefix|, k, k + |part|);
  }

  lemma {:induction false} DigitsStartAt(data: Bytes, start: nat, end: nat)
    requires start <= end <= |data|
    requires forall i :: start <= i < end ==> IsDigit(data[i])
    requires start > 0 ==> !IsDigit(data[start - 1])
    ensures DigitsStart(data, end) == start
  {
    if start < end { DigitsStartAt(data, start, end - 1); }
  }

  lemma {:induction false} FindNewlineAt(data: Bytes, position: nat, newline: nat)
    requires position <= newline < |data| && data[newline] == 10
    requires forall i :: position <= i < newline ==> data[i] != 10
    ensures FindNewline(data, position) == Some(newline)
    decreases newline - position
  {
    if position < newline { FindNewlineAt(data, position + 1, newline); }
  }

  lemma NumeralIsDigits(n: nat)
    ensures Numeral(n) != [] && forall i :: 0 <= i < |Numeral(n)| ==> IsDigit(Numeral(n)[i])
  {
  }

  // The offset written last is found again.
  lemma StartXrefReads(before: Bytes, position: nat)
    ensures ReadStartXref(before + StartXref(position)) == Some(position)
  {
    var marker := Latin1("\n%%EOF\n");
    var keyword := Latin1("startxref\n");
    var data := before + StartXref(position);
    var start := |before| + |keyword|;
    var end := start + |Numeral(position)|;
    NumeralIsDigits(position);
    assert data == before + keyword + Numeral(position) + marker;
    assert data[start..end] == Numeral(position);
    assert forall i :: start <= i < end ==> data[i] == Numeral(position)[i - start];
    assert data[start - 1] == keyword[9] == 10;
    assert data[|data| - |marker|..] == marker;
    DigitsStartAt(data, start, end);
    ParsePrint(position);
  }

  lemma {:induction false} BodyIsPrefix(objects: seq<Bytes>, i: nat)
    requires i <= |objects|
    ensures |Body(objects[..i])| <= |Body(objects)| && Body(objects)[..|Body(objects[..i])|] == Body(objects[..i])
    ensures i < |objects| ==> Offsets(objects)[i] == |Body(objects[..i])|
    decreases |objects|
  {
    if i == |objects| {
      assert objects[..i] == objects;
    } else {
      var shorter := objects[..|objects| - 1];
      assert shorter[..i] == objects[..i];
      BodyIsPrefix(shorter, i);
    }
  }

  // In the body, an object's bytes stand at its offset.
  lemma {:induction false} ObjectAtOffset(objects: seq<Bytes>, i: nat)
    requires i < |objects|
    ensures At(Body(objects), Offsets(objects)[i], ObjectHeader(i + 1) + objects[i])
  {
    var before := Body(objects[..i]);
    var piece := ObjectHeader(i + 1) + objects[i];
    BodyIsPrefix(objects, i);
    BodyIsPrefix(objects, i + 1);
    BodyGrows(objects, i);
    ObjectOpens(before, i + 1, objects[i]);
    PrefixCarries(Body(objects), Body(objects[..i + 1]), |before|, piece);
  }

  lemma ObjectOpens(before: Bytes, number: nat, content: Bytes)
    ensures At(before + ObjectBytes(number, content), |before|, ObjectHeader(number) + content)
  {
    var piece := ObjectHeader(number) + content;
    var after := LineEnd(content) + Latin1("endobj\n");
    assert before + ObjectBytes(number, content) == before + piece + after;
    AtMiddle(before, piece, after);
  }

  lemma EntryWidth(offset: nat)
    ensures |Entry(offset)| == 20 <==> offset < 10_000_000_000
  {
    PaddedWidth(offset);
  }

  lemma {:induction false} EntryAt(offsets: seq<nat>, i: nat)
    requires i < |offsets|
    requires forall k :: 0 <= k < i ==> offsets[k] < 10_000_000_000
    ensures At(Entries(offsets), 20 * i, Entry(offsets[i]))
    decreases |offsets|
  {
    var shorter := offsets[..|offsets| - 1];
    var last := offsets[|offsets| - 1];
    if i < |shorter| {
      EntryAt(shorter, i);
      assert Entries(offsets)[..|Entries(shorter)|] == Entries(shorter);
      PrefixCarries(Entries(offsets), Entries(shorter), 20 * i, Entry(offsets[i]));
    } else {
      EntriesWidth(shorter);
      assert Entries(offsets) == Entries(shorter) + Entry(last) + [];
      AtMiddle(Entries(shorter), Entry(last), []);
    }
  }

  lemma {:induction false} EntriesWidth(offsets: seq<nat>)
    requires forall k :: 0 <= k < |offsets| ==> offsets[k] < 10_000_000_000
    ensures |Entries(offsets)| == 20 * |offsets|
  {
    if offsets != [] {
      EntryWidth(offsets[|offsets| - 1]);
      EntriesWidth(offsets[..|offsets| - 1]);
    }
  }

  // What the reader relies on: where body, table header, entries and trailer stand in the data.
  ghost predicate Laid(data: Bytes, body: Bytes, header: Bytes, entries: Bytes, trailer: Bytes) {
    && At(data, 0, body)
    && At(data, |body|, XrefKeyword())
    && At(data, |body| + 5, header)
    && At(data, |body| + 5 + |header|, NEWLINE)
    && At(data, |body| + 6 + |header|, FreeEntry())
    && At(data, |body| + 26 + |header|, entries)
    && At(data, |body| + 26 + |header| + |entries|, trailer)
    && ReadStartXref(data) == Some(|body|)
  }

  lemma {:induction false} PdfIsLaid(objects: seq<Bytes>)
    ensures Laid(Pdf(objects), Body(objects), SectionHeader(|objects| + 1), Entries(Offsets(objects)),
                 Trailer(|objects| + 1))
  {
    JoinedEight(Body(objects), XrefKeyword(), SectionHeader(|objects| + 1), NEWLINE, FreeEntry(),
                Entries(Offsets(objects)), Trailer(|objects| + 1), StartXref(|Body(objects)|));
    LaidOut(Body(objects), SectionHeader(|objects| + 1), Entries(Offsets(objects)), Trailer(|objects| + 1));
  }

  lemma LaidOut(body: Bytes, header: Bytes, entries: Bytes, trailer: Bytes)
    ensures Laid(body + XrefKeyword() + header + NEWLINE + FreeEntry() + entries + trailer + StartXref(|body|),
                 body, header, entries, trailer)
  {
    var p1 := body + XrefKeyword();
    var p2 := p1 + header;
    var p3 := p2 + NEWLINE;
    var p4 := p3 + FreeEntry();
    var p5 := p4 + entries;
    var p6 := p5 + trailer;
    var data := p6 + StartXref(|body|);
    Grows(data, p6, StartXref(|body|));
    Grows(data, p5, trailer);
    Grows(data, p4, entries);
    Grows(data, p3, FreeEntry());
    Grows(data, p2, NEWLINE);
    Grows(data, p1, header);
    Grows(data, body, XrefKeyword());
    StartXrefReads(p6, |body|);
  }

  ghost predicate Opens(data: Bytes, prefix: Bytes) {
    |prefix| <= |data| && data[..|prefix|] == prefix
  }

  // When the data opens with a piece and its successor, the successor stands after the piece.
  lemma Grows(data: Bytes, prefix: Bytes, piece: Bytes)
    requires Opens(data, prefix + piece)
    ensures Opens(data, prefix) && At(data, |prefix|, piece)
  {
    SliceOfSlice(data, 0, |prefix + piece|, 0, |prefix|);
    SliceOfSlice(data, 0, |prefix + piece|, |prefix|, |prefix + piece|);
  }

  lemma SectionHeaderIsOneLine(count: nat)
    ensures forall i :: 0 <= i < |SectionHeader(count)| ==> SectionHeader(count)[i] != 10
  {
    NumeralIsDigits(count);
    assert Latin1("0 ") == [48, 32];
  }

  // The reader finds the table's entries where the writer put them.
  lemma EntryPositionReads(data: Bytes, body: Bytes, header: Bytes, entries: Bytes, trailer: Bytes, number: nat)
    requires Laid(data, body, header, entries, trailer)
    requires forall i :: 0 <= i < |header| ==> header[i] != 10
    ensures EntryPosition(data, number) == Some(|body| + 6 + |header| + 20 * number)
  {
    LineEnds(data, |body| + 5, header);
  }

  lemma LineEnds(data: Bytes, start: nat, line: Bytes)
    requires At(data, start, line) && At(data, start + |line|, NEWLINE)
    requires forall i :: 0 <= i < |line| ==> line[i] != 10
    ensures FindNewline(data, start) == Some(start + |line|)
  {
    var slice := data[start..start + |line|];
    assert slice == line;
    assert forall i :: start <= i < start + |line| ==> data[i] == slice[i - start];
    var last := data[start + |line|..start + |line| + 1];
    assert last == NEWLINE && data[start + |line|] == last[0] == 10;
    FindNewlineAt(data, start, start + |line|);
  }

  // The reader takes an object's offset from its entry.
  lemma OffsetReads(data: Bytes, body: Bytes, header: Bytes, entries: Bytes, trailer: Bytes,
                    entry: Bytes, i: nat, offset: nat)
    requires Laid(data, body, header, entries, trailer)
    requires forall k :: 0 <= k < |header| ==> header[k] != 10
    requires At(entries, 20 * i, entry) && entry == Entry(offset) && offset < 10_000_000_000
    ensures LocateObject(data, i + 1) == Some(offset)
  {
    EntryPositionReads(data, body, header, entries, trailer, i + 1);
    var table := |body| + 26 + |header|;
    AtWithin(data, table, entries, 20 * i, entry);
    LocateReads(data, i + 1, table + 20 * i, offset);
  }

  lemma LocateReads(data: Bytes, number: nat, position: nat, offset: nat)
    requires EntryPosition(data, number) == Some(position)
    requires At(data, position, Entry(offset)) && offset < 10_000_000_000
    ensures LocateObject(data, number) == Some(offset)
  {
    EntryReads(data, position, offset);
  }

  /** The cross-reference table is right, exactly as far as ten digits reach.  For every list of
      objects and every object in it, the recorded offset is where the bytes that open the object
      stand, and following the file's own pointers (`startxref`, the section header, the object's
      twenty-byte entry) ends there iff that offset is below ten to the tenth. */
  lemma {:induction false} XrefLocatesObjects(objects: seq<Bytes>, i: nat)
    requires i < |objects|
    ensures LocateObject(Pdf(objects), i + 1) == Some(Offsets(objects)[i]) <==> Offsets(objects)[i] < 10_000_000_000
    ensures At(Pdf(objects), Offsets(objects)[i], Numeral(i + 1) + Latin1(" 0 obj\n") + objects[i])
  {
    if Offsets(objects)[i] < 10_000_000_000 {
      TableReads(objects, i);
    } else {
      LocatesTenDigits(Pdf(objects), i + 1);
    }
    ObjectStands(objects, i);
  }

  // Whatever it reads, the reader reads ten digits.
  lemma LocatesTenDigits(data: Bytes, number: nat)
    ensures LocateObject(data, number).Some? ==> LocateObject(data, number).value < 10_000_000_000
  {
    var position := EntryPosition(data, number);
    if position.Some? && position.value + 20 <= |data| {
      TenDigitsAreSmall(data[position.value..position.value + 10]);
    }
  }

  // Offsets grow, so an offset of ten digits has none wider before it.
  lemma OffsetsAscend(objects: seq<Bytes>, k: nat, i: nat)
    requires k <= i < |objects|
    ensures Offsets(objects)[k] <= Offsets(objects)[i]
  {
    assert objects[..i][..k] == objects[..k];
    BodyIsPrefix(objects, k);
    BodyIsPrefix(objects, i);
    BodyIsPrefix(objects[..i], k);
  }

  lemma TableReads(objects: seq<Bytes>, i: nat)
    requires i < |objects| && Offsets(objects)[i] < 10_000_000_000
    ensures LocateObject(Pdf(objects), i + 1) == Some(Offsets(objects)[i])
  {
    PdfIsLaid(objects);
    SectionHeaderIsOneLine(|objects| + 1);
    forall k | 0 <= k < i ensures Offsets(objects)[k] < 10_000_000_000 {
      OffsetsAscend(objects, k, i);
    }
    EntryAt(Offsets(objects), i);
    OffsetReads(Pdf(objects), Body(objects), SectionHeader(|objects| + 1), Entries(Offsets(objects)),
                Trailer(|objects| + 1), Entry(Offsets(objects)[i]), i, Offsets(objects)[i]);
  }

  lemma LaidCarries(data: Bytes, body: Bytes, header: Bytes, entries: Bytes, trailer: Bytes,
                    position: nat, piece: Bytes)
    requires Laid(data, body, header, entries, trailer) && At(body, position, piece)
    ensures At(data, position, piece)
  {
    AtWithin(data, 0, body, position, piece);
  }

  lemma ObjectStands(objects: seq<Bytes>, i: nat)
    requires i < |objects|
    ensures At(Pdf(objects), Offsets(objects)[i], ObjectHeader(i + 1) + objects[i])
  {
    PdfIsLaid(objects);
    ObjectAtOffset(objects, i);
    LaidCarries(Pdf(objects), Body(objects), SectionHeader(|objects| + 1), Entries(Offsets(objects)),
                Trailer(|objects| + 1), Offsets(objects)[i], ObjectHeader(i + 1) + objects[i]);
  }

  lemma EntryReads(data: Bytes, position: nat, offset: nat)
    requires At(data, position, Entry(offset)) && offset < 10_000_000_000
    ensures position + 20 <= |data| && At(data, position + 10, Latin1(" 00000 n \n"))
    ensures ParseAscii(data[position..position + 10]) == Some(offset)
  {
    EntryWidth(offset);
    PaddedWidth(offset);
    AtWithin(data, position, Entry(offset), 10, Latin1(" 00000 n \n"));
    AtWithin(data, position, Entry(offset), 0, Ascii(Padded(offset)));
    ParsePrint(offset);
  }

  /** Every entry is twenty bytes wide iff every offset is below ten to the tenth. */
  lemma EntriesFixedWidth(offsets: seq<nat>)
    ensures (forall i :: 0 <= i < |offsets| ==> |Entry(offsets[i])| == 20)
       <==> (forall i :: 0 <= i < |offsets| ==> offsets[i] < 10_000_000_000)
  {
    forall i | 0 <= i < |offsets| ensures |Entry(offsets[i])| == 20 <==> offsets[i] < 10_000_000_000 {
      EntryWidth(offsets[i]);
    }
  }

  // ---------------------------------------------------------------- the page

  // Before the page's content stream nothing depends on the text.
  lemma ContentOffsetIsSmall(text: string)
    ensures Offsets(PageObjects(text))[3] < 1000
  {
    var objects := PageObjects(text);
    assert |objects[0]| < 150 && |objects[1]| < 150 && |objects[2]| < 150;
    SmallObjectsEndEarly(objects);
  }

  lemma SmallObjectsEndEarly(objects: seq<Bytes>)
    requires |objects| > 3 && |objects[0]| < 150 && |objects[1]| < 150 && |objects[2]| < 150
    ensures Offsets(objects)[3] < 1000
  {
    BodyIsPrefix(objects, 3);
    BodyGrows(objects, 2);
    BodyGrows(objects, 1);
    BodyGrows(objects, 0);
    ObjectSize(1, objects[0]);
    ObjectSize(2, objects[1]);
    ObjectSize(3, objects[2]);
    assert |Body(objects[..0])| == |Preamble()| < 20;
  }

  lemma ObjectSize(number: nat, content: Bytes)
    requires number < 10
    ensures |ObjectBytes(number, content)| <= |content| + 20
  {
    assert |Numeral(number)| == 1;
  }

  /** The one-page document of any text: the table always leads to its first four objects, the
      content stream the last of them, and to the font behind it iff its offset has ten digits. */
  lemma {:induction false} PageObjectsLocated(text: string, i: nat)
    requires i < 5
    ensures var objects := PageObjects(text);
            && At(Pdf(objects), Offsets(objects)[i], Numeral(i + 1) + Latin1(" 0 obj\n") + objects[i])
            && (LocateObject(Pdf(objects), i + 1) == Some(Offsets(objects)[i]) <==>
                  i < 4 || Offsets(objects)[4] < 10_000_000_000)
  {
    XrefLocatesObjects(PageObjects(text), i);
    ContentOffsetIsSmall(text);
    if i < 4 {
      OffsetsAscend(PageObjects(text), i, 3);
    }
  }

  // Where the run of digits that starts at a position ends.
  function DigitsEnd(data: Bytes, start: nat): (end: nat)
    requires start <= |data|
    ensures start <= end <= |data|
    decreases |data| - start
  {
    if start < |data| && IsDigit(data[start]) then DigitsEnd(data, start + 1) else start
  }

  // The bytes between two keywords, as many as the numeral in front of the first one says.
  function ReadFramed(data: Bytes, position: nat, opening: Bytes, keyword: Bytes, closing: Bytes): Option<Bytes> {
    if !At(data, position, opening) then None
    else
      var start := position + |opening|;
      var end := DigitsEnd(data, start);
      var begin := end + |keyword|;
      match ParseAscii(data[start..end])
      case None => None
      case Some(length) =>
        if At(data, end, keyword) && At(data, begin + length, closing) then Some(data[begin..begin + length]) else None
  }

  /** The stream in an object: located by the table, as long as its dictionary says, and closed by
      its keyword (section 7.3.8 of ISO 32000-1). */
  function ReadStream(data: Bytes, number: nat): Option<Bytes> {
    match LocateObject(data, number)
    case None => None
    case Some(position) =>
      ReadFramed(data, position, ObjectHeader(number) + Latin1("<< /Length "), Latin1(" >>\nstream\n"),
                 Latin1("\nendstream"))
  }

  lemma {:induction false} DigitsEndAt(data: Bytes, start: nat, end: nat)
    requires start <= end < |data|
    requires forall i :: start <= i < end ==> IsDigit(data[i])
    requires !IsDigit(data[end])
    ensures DigitsEnd(data, start) == end
    decreases end - start
  {
    if start < end { DigitsEndAt(data, start + 1, end); }
  }

  lemma AtBoth(data: Bytes, position: nat, first: Bytes, second: Bytes)
    requires At(data, position, first + second)
    ensures At(data, position, first) && At(data, position + |first|, second)
  {
    AtMiddle([], first, second);
    assert [] + first + second == first + second;
    AtMiddle(first, second, []);
    assert first + second + [] == first + second;
    AtWithin(data, position, first + second, 0, first);
    AtWithin(data, position, first + second, |first|, second);
  }

  // A numeral that stands in front of a space reads back.
  lemma NumeralReads(data: Bytes, start: nat, n: nat, after: Bytes)
    requires At(data, start, Numeral(n)) && At(data, start + |Numeral(n)|, after)
    requires after != [] && !IsDigit(after[0])
    ensures DigitsEnd(data, start) == start + |Numeral(n)|
    ensures ParseAscii(data[start..start + |Numeral(n)|]) == Some(n)
  {
    var end := start + |Numeral(n)|;
    NumeralIsDigits(n);
    var slice := data[start..end];
    assert slice == Numeral(n);
    assert forall i :: start <= i < end ==> data[i] == slice[i - start];
    var rest := data[end..end + |after|];
    assert rest == after && data[end] == rest[0];
    DigitsEndAt(data, start, end);
    ParsePrint(n);
  }

  lemma FramedReads(data: Bytes, position: nat, opening: Bytes, keyword: Bytes, stream: Bytes, closing: Bytes)
    requires At(data, position, opening + Numeral(|stream|) + keyword + stream + closing)
    requires keyword != [] && !IsDigit(keyword[0])
    ensures ReadFramed(data, position, opening, keyword, closing) == Some(stream)
  {
    var length := Numeral(|stream|);
    AtBoth(data, position, opening + length + keyword + stream, closing);
    AtBoth(data, position, opening + length + keyword, stream);
    AtBoth(data, position, opening + length, keyword);
    AtBoth(data, position, opening, length);
    NumeralReads(data, position + |opening|, |stream|, keyword);
  }

  // The content stream's object as a frame around the stream.
  lemma ContentObjectIsFramed(header: Bytes, text: string)
    ensures var stream := ContentStream(text);
            header + ContentObject(text) ==
              (header + Latin1("<< /Length ")) + Numeral(|stream|) + Latin1(" >>\nstream\n") + stream
              + Latin1("\nendstream")
  {
    var stream := ContentStream(text);
    AssociateFive(header, Latin1("<< /Length "), Numeral(|stream|), Latin1(" >>\nstream\n"), stream,
                  Latin1("\nendstream"));
  }

  lemma AssociateFive(first: Bytes, a: Bytes, b: Bytes, c: Bytes, d: Bytes, e: Bytes)
    ensures first + (a + b + c + d + e) == (first + a) + b + c + d + e
  {
  }

  lemma ContentStreamReads(data: Bytes, number: nat, position: nat, text: string)
    requires LocateObject(data, number) == Some(position)
    requires At(data, position, ObjectHeader(number) + ContentObject(text))
    ensures ReadStream(data, number) == Some(ContentStream(text))
  {
    ContentObjectIsFramed(ObjectHeader(number), text);
    assert Latin1(" >>\nstream\n")[0] == 32;
    FramedReads(data, position, ObjectHeader(number) + Latin1("<< /Length "), Latin1(" >>\nstream\n"),
                ContentStream(text), Latin1("\nendstream"));
  }

  lemma ContentObjectReads(objects: seq<Bytes>, i: nat, text: string)
    requires i < |objects| && objects[i] == ContentObject(text) && Offsets(objects)[i] < 10_000_000_000
    ensures ReadStream(Pdf(objects), i + 1) == Some(ContentStream(text))
  {
    TableReads(objects, i);
    ObjectStands(objects, i);
    ContentStreamReads(Pdf(objects), i + 1, Offsets(objects)[i], text);
  }

  /** From the file's bytes to the text.  A reader that follows `startxref` to the page's content
      stream, takes the bytes its dictionary announces, scans the literal string shown there and
      unescapes it, finds the encoded text with its line ends read as LF. */
  lemma PageTextReadsBack(text: string)
    ensures ReadStream(Pdf(PageObjects(text)), 4) == Some(ContentStream(text))
    ensures ShownText(ReadStream(Pdf(PageObjects(text)), 4).value) == Some(LinesAsLf(Latin1(text)))
  {
    ContentOffsetIsSmall(text);
    ContentObjectReads(PageObjects(text), 3, text);
    TextReadsBack(text);
  }
}
