/** A reader of the whole file that scripts/e2e_sgraph_real_path.py writes: from the end of the file
    to the table, from the trailer through catalog, pages and page to the content stream (sections
    7.5.2, 7.5.4, 7.5.5 and 7.7 of ISO 32000-1), and from there to the text. */
module PdfReader {
  import opened Common
  import opened Decimal
  import opened PdfText
  import opened PdfFile

  // ---------------------------------------------------------------- numerals between keywords

  // A numeral between two pieces: its value, and where the second piece stands.
  function ReadBetween(data: Bytes, position: nat, before: Bytes, after: Bytes): Option<(nat, nat)> {
    if !At(data, position, before) then None
    else
      var start := position + |before|;
      var end := DigitsEnd(data, start);
      match ParseAscii(data[start..end])
      case None => None
      case Some(n) => if At(data, end, after) then Some((n, end)) else None
  }

  lemma BetweenReads(data: Bytes, position: nat, before: Bytes, n: nat, after: Bytes)
    requires At(data, position, before + Numeral(n) + after)
    requires after != [] && !IsDigit(after[0])
    ensures ReadBetween(data, position, before, after) == Some((n, position + |before| + |Numeral(n)|))
  {
    AtBoth(data, position, before + Numeral(n), after);
    AtBoth(data, position, before, Numeral(n));
    NumeralReads(data, position + |before|, n, after);
  }

  // Two numerals in a row, among three pieces.
  function ReadTwo(data: Bytes, position: nat, opening: Bytes, middle: Bytes, closing: Bytes): Option<(nat, nat)> {
    match ReadBetween(data, position, opening, middle)
    case None => None
    case Some((first, next)) =>
      match ReadBetween(data, next, middle, closing)
      case None => None
      case Some((second, _)) => Some((first, second))
  }

  lemma TwoRead(data: Bytes, position: nat, opening: Bytes, m: nat, middle: Bytes, n: nat, closing: Bytes)
    requires At(data, position, opening + Numeral(m) + (middle + Numeral(n) + closing))
    requires middle != [] && !IsDigit(middle[0]) && closing != [] && !IsDigit(closing[0])
    ensures ReadTwo(data, position, opening, middle, closing) == Some((m, n))
  {
    AtBoth(data, position, opening + Numeral(m), middle + Numeral(n) + closing);
    assert middle + Numeral(n) + closing == middle + (Numeral(n) + closing);
    assert opening + Numeral(m) + (middle + Numeral(n) + closing)
        == opening + Numeral(m) + middle + (Numeral(n) + closing);
    AtBoth(data, position, opening + Numeral(m) + middle, Numeral(n) + closing);
    BetweenReads(data, position, opening, m, middle);
    BetweenReads(data, position + |opening| + |Numeral(m)|, middle, n, closing);
  }

  // ---------------------------------------------------------------- the trailer

  /** How many entries the table's section header announces, from object 0 on. */
  function ReadCount(data: Bytes): Option<nat> {
    match ReadStartXref(data)
    case None => None
    case Some(xref) =>
      match ReadBetween(data, xref, XrefKeyword() + Latin1("0 "), NEWLINE)
      case None => None
      case Some((count, _)) => Some(count)
  }

  function TrailerOpening(): Bytes {
    Latin1("trailer\n<< /Size ")
  }

  function RootKeyword(): Bytes {
    Latin1(" /Root ")
  }

  function TrailerClosing(): Bytes {
    Latin1(" 0 R >>\n")
  }

  // The root that a trailer of a given size names, at a position.
  function RootAt(data: Bytes, position: nat, size: nat): Option<nat> {
    match ReadTwo(data, position, TrailerOpening(), RootKeyword(), TrailerClosing())
    case None => None
    case Some((written, root)) => if written == size then Some(root) else None
  }

  // The same behind some entries of twenty bytes.
  function RootBehind(data: Bytes, position: nat, entries: nat, size: nat): Option<nat>
    decreases entries
  {
    if entries == 0 then RootAt(data, position, size)
    else if position + 20 > |data| then None
    else RootBehind(data, position + 20, entries - 1, size)
  }

  /** The root of the document, as the trailer names it. */
  function ReadRoot(data: Bytes): Option<nat> {
    match (ReadCount(data), EntryPosition(data, 0))
    case (Some(count), Some(table)) =>
      RootBehind(data, table, count, count)
    case _ => None
  }

  lemma CountReads(data: Bytes, body: Bytes, header: Bytes, entries: Bytes, trailer: Bytes, count: nat)
    requires Laid(data, body, header, entries, trailer) && header == SectionHeader(count)
    ensures ReadCount(data) == Some(count) && EntryPosition(data, 0) == Some(|body| + 6 + |header|)
  {
    SectionHeaderIsOneLine(count);
    EntryPositionReads(data, body, header, entries, trailer, 0);
    HeaderReads(data, |body|, count);
  }

  lemma HeaderReads(data: Bytes, xref: nat, count: nat)
    requires ReadStartXref(data) == Some(xref)
    requires At(data, xref, XrefKeyword()) && At(data, xref + 5, SectionHeader(count))
    requires At(data, xref + 5 + |SectionHeader(count)|, NEWLINE)
    ensures ReadCount(data) == Some(count)
  {
    Together(data, xref, XrefKeyword(), SectionHeader(count));
    Together(data, xref, XrefKeyword() + SectionHeader(count), NEWLINE);
    assert XrefKeyword() + (Latin1("0 ") + Numeral(count)) == (XrefKeyword() + Latin1("0 ")) + Numeral(count);
    BetweenReads(data, xref, XrefKeyword() + Latin1("0 "), count, NEWLINE);
  }

  lemma Together(data: Bytes, position: nat, first: Bytes, second: Bytes)
    requires At(data, position, first) && At(data, position + |first|, second)
    ensures At(data, position, first + second)
  {
    var end := position + |first| + |second|;
    assert data[position..end] == data[position..position + |first|] + data[position + |first|..end];
  }

  lemma TrailerIs(count: nat)
    ensures Trailer(count) == TrailerOpening() + Numeral(count) + (RootKeyword() + Numeral(1) + TrailerClosing())
  {
    assert Numeral(1) == [49];
    assert Latin1(" /Root 1 0 R >>\n") == RootKeyword() + Numeral(1) + TrailerClosing();
  }

  lemma TrailerKeywords()
    ensures TrailerOpening() != [] && TrailerOpening()[0] == 116
    ensures RootKeyword() != [] && !IsDigit(RootKeyword()[0])
    ensures TrailerClosing() != [] && !IsDigit(TrailerClosing()[0])
  {
  }

  // ---------------------------------------------------------------- how wide the table is

  // Every offset fits its entry.
  ghost predicate TenDigits(offsets: seq<nat>) {
    forall k :: 0 <= k < |offsets| ==> offsets[k] < 10_000_000_000
  }

  lemma {:induction false} EntriesSpan(offsets: seq<nat>)
    ensures |Entries(offsets)| >= 20 * |offsets|
    ensures |Entries(offsets)| == 20 * |offsets| <==> TenDigits(offsets)
  {
    if offsets != [] {
      var shorter, last := offsets[..|offsets| - 1], offsets[|offsets| - 1];
      EntriesSpan(shorter);
      PaddedWidth(last);
      EntryWidth(last);
      assert offsets == shorter + [last];
      assert TenDigits(offsets) <==> TenDigits(shorter) && last < 10_000_000_000;
    }
  }

  // No entry holds the letter that opens the trailer.
  lemma {:induction false} NoTrailerInside(offsets: seq<nat>, i: nat)
    requires i < |Entries(offsets)|
    ensures Entries(offsets)[i] != 116
  {
    var shorter, last := offsets[..|offsets| - 1], offsets[|offsets| - 1];
    if i < |Entries(shorter)| {
      NoTrailerInside(shorter, i);
    } else {
      assert Entries(offsets)[i] == Entry(last)[i - |Entries(shorter)|];
    }
  }

  lemma FirstByteDecides(data: Bytes, position: nat, piece: Bytes)
    requires position < |data| && piece != [] && data[position] != piece[0]
    ensures !At(data, position, piece)
  {
    if position + |piece| <= |data| {
      assert data[position..position + |piece|][0] == data[position];
    }
  }

  lemma {:induction false} RootBehindIs(data: Bytes, position: nat, entries: nat, size: nat)
    requires position + 20 * entries <= |data|
    ensures RootBehind(data, position, entries, size) == RootAt(data, position + 20 * entries, size)
    decreases entries
  {
    if entries > 0 { RootBehindIs(data, position + 20, entries - 1, size); }
  }

  lemma RootAtReads(data: Bytes, position: nat, size: nat, root: nat)
    requires At(data, position, TrailerOpening() + Numeral(size) + (RootKeyword() + Numeral(root) + TrailerClosing()))
    ensures RootAt(data, position, size) == Some(root)
  {
    TrailerKeywords();
    TwoRead(data, position, TrailerOpening(), size, RootKeyword(), root, TrailerClosing());
  }

  lemma RootAtMisses(data: Bytes, position: nat, size: nat)
    requires position < |data| && data[position] != 116
    ensures RootAt(data, position, size) == None
  {
    TrailerKeywords();
    FirstByteDecides(data, position, TrailerOpening());
  }

  // Entries as wide as announced or wider, none of them with the letter that opens the trailer.
  ghost predicate Spanning(entries: Bytes, trailer: Bytes, count: nat) {
    && count >= 1 && |entries| >= 20 * (count - 1) && (forall k :: 0 <= k < |entries| ==> entries[k] != 116)
    && trailer == TrailerOpening() + Numeral(count) + (RootKeyword() + Numeral(1) + TrailerClosing())
  }

  // The trailer stands right behind the entries.
  lemma NarrowRoot(data: Bytes, table: nat, position: nat, trailer: Bytes, count: nat)
    requires position == table + 20 * count && position <= |data| && At(data, position, trailer)
    requires trailer == TrailerOpening() + Numeral(count) + (RootKeyword() + Numeral(1) + TrailerClosing())
    ensures RootBehind(data, table, count, count) == Some(1)
  {
    RootAtReads(data, position, count, 1);
    RootBehindIs(data, table, count, count);
  }

  // The reader looks for the trailer among the entries.
  lemma WideRoot(data: Bytes, table: nat, start: nat, entries: Bytes, k: nat, count: nat)
    requires At(data, start, entries) && k < |entries| && entries[k] != 116 && start + k == table + 20 * count
    ensures RootBehind(data, table, count, count) == None
  {
    var slice := data[start..start + |entries|];
    assert slice == entries && data[start + k] == slice[k];
    RootAtMisses(data, start + k, count);
    RootBehindIs(data, table, count, count);
  }

  lemma RootBehindTable(data: Bytes, table: nat, entries: Bytes, trailer: Bytes, count: nat)
    requires At(data, table + 20, entries) && At(data, table + 20 + |entries|, trailer)
    requires Spanning(entries, trailer, count)
    ensures RootBehind(data, table, count, count) == if |entries| == 20 * (count - 1) then Some(1) else None
  {
    if |entries| == 20 * (count - 1) {
      NarrowRoot(data, table, table + 20 + |entries|, trailer, count);
    } else {
      WideRoot(data, table, table + 20, entries, 20 * (count - 1), count);
    }
  }

  lemma LaidParts(data: Bytes, body: Bytes, header: Bytes, entries: Bytes, trailer: Bytes, table: nat)
    requires Laid(data, body, header, entries, trailer) && table == |body| + 6 + |header|
    ensures At(data, table, FreeEntry()) && At(data, table + 20, entries) && At(data, table + 20 + |entries|, trailer)
  {
  }

  lemma RootIs(data: Bytes, table: nat, count: nat)
    requires ReadCount(data) == Some(count) && EntryPosition(data, 0) == Some(table)
    ensures ReadRoot(data) == RootBehind(data, table, count, count)
  {
  }

  lemma LaidRootIs(data: Bytes, body: Bytes, header: Bytes, entries: Bytes, trailer: Bytes, count: nat)
    requires Laid(data, body, header, entries, trailer) && header == SectionHeader(count)
    ensures ReadRoot(data) == RootBehind(data, |body| + 6 + |header|, count, count)
  {
    CountReads(data, body, header, entries, trailer, count);
    RootIs(data, |body| + 6 + |header|, count);
  }

  lemma LaidRootFollows(data: Bytes, body: Bytes, header: Bytes, entries: Bytes, trailer: Bytes, count: nat)
    requires Laid(data, body, header, entries, trailer) && Spanning(entries, trailer, count)
    ensures RootBehind(data, |body| + 6 + |header|, count, count) ==
              if |entries| == 20 * (count - 1) then Some(1) else None
  {
    var table := |body| + 6 + |header|;
    LaidParts(data, body, header, entries, trailer, table);
    RootBehindTable(data, table, entries, trailer, count);
  }

  lemma LaidRootReads(data: Bytes, body: Bytes, header: Bytes, entries: Bytes, trailer: Bytes, count: nat)
    requires Laid(data, body, header, entries, trailer) && header == SectionHeader(count)
    requires Spanning(entries, trailer, count)
    ensures ReadRoot(data) == if |entries| == 20 * (count - 1) then Some(1) else None
  {
    LaidRootIs(data, body, header, entries, trailer, count);
    LaidRootFollows(data, body, header, entries, trailer, count);
  }

  /** The trailer is found, and names object 1 as the root, iff every offset has ten digits. */
  lemma RootReadsIff(objects: seq<Bytes>)
    ensures ReadRoot(Pdf(objects)) == if TenDigits(Offsets(objects)) then Some(1) else None
  {
    var count := |objects| + 1;
    var entries := Entries(Offsets(objects));
    PdfIsLaid(objects);
    TrailerIs(count);
    EntriesSpan(Offsets(objects));
    forall k | 0 <= k < |entries| ensures entries[k] != 116 {
      NoTrailerInside(Offsets(objects), k);
    }
    LaidRootReads(Pdf(objects), Body(objects), SectionHeader(count), entries, Trailer(count), count);
  }

  /** The table's first entry is the free one that heads the list of free objects. */
  lemma FirstEntryIsFree(objects: seq<Bytes>, free: Bytes)
    requires free == Latin1("0000000000 65535 f \n")
    ensures EntryPosition(Pdf(objects), 0).Some?
    ensures At(Pdf(objects), EntryPosition(Pdf(objects), 0).value, free)
  {
    var count := |objects| + 1;
    FreeEntryIs(free);
    PdfIsLaid(objects);
    LaidFirstEntry(Pdf(objects), Body(objects), SectionHeader(count), Entries(Offsets(objects)), Trailer(count), count,
                   free);
  }

  lemma FreeEntryIs(free: Bytes)
    requires free == Latin1("0000000000 65535 f \n")
    ensures free == FreeEntry()
  {
  }

  lemma LaidFirstEntry(data: Bytes, body: Bytes, header: Bytes, entries: Bytes, trailer: Bytes, count: nat, free: Bytes)
    requires Laid(data, body, header, entries, trailer) && header == SectionHeader(count) && free == FreeEntry()
    ensures EntryPosition(data, 0).Some? && At(data, EntryPosition(data, 0).value, free)
  {
    CountReads(data, body, header, entries, trailer, count);
    LaidParts(data, body, header, entries, trailer, |body| + 6 + |header|);
  }

  // ---------------------------------------------------------------- from the root to the page

  /** The object that an object's dictionary refers to, between two pieces of its text. */
  function ReadReference(data: Bytes, number: nat, opening: Bytes, closing: Bytes): Option<nat> {
    match LocateObject(data, number)
    case None => None
    case Some(position) =>
      match ReadBetween(data, position, ObjectHeader(number) + opening, closing)
      case None => None
      case Some((reference, _)) => Some(reference)
  }

  // The table leads to an object of the given content.
  ghost predicate Holds(data: Bytes, number: nat, content: Bytes) {
    LocateObject(data, number).Some? && At(data, LocateObject(data, number).value, ObjectHeader(number) + content)
  }

  lemma PdfHolds(objects: seq<Bytes>, i: nat)
    requires i < |objects| && Offsets(objects)[i] < 10_000_000_000
    ensures Holds(Pdf(objects), i + 1, objects[i])
  {
    TableReads(objects, i);
    ObjectStands(objects, i);
  }

  lemma ReferenceReads(data: Bytes, number: nat, opening: Bytes, n: nat, closing: Bytes)
    requires Holds(data, number, opening + Numeral(n) + closing)
    requires closing != [] && !IsDigit(closing[0])
    ensures ReadReference(data, number, opening, closing) == Some(n)
  {
    AssociateThree(ObjectHeader(number), opening, Numeral(n), closing);
    BetweenReads(data, LocateObject(data, number).value, ObjectHeader(number) + opening, n, closing);
  }

  lemma AssociateThree(first: Bytes, a: Bytes, b: Bytes, c: Bytes)
    ensures first + (a + b + c) == (first + a) + b + c
  {
  }

  // The dictionaries on the way, up to and after the reference that is followed.
  function Catalog(): (Bytes, Bytes) {
    (Latin1("<< /Type /Catalog /Pages "), Latin1(" 0 R >>"))
  }

  function Pages(): (Bytes, Bytes) {
    (Latin1("<< /Type /Pages /Kids ["), Latin1(" 0 R] /Count 1 >>"))
  }

  function Page(): (Bytes, Bytes) {
    (Latin1("<< /Type /Page /Parent 2 0 R /MediaBox [0 0 595 842] "
            + "/Resources << /Font << /F1 5 0 R >> >> /Contents "), Latin1(" 0 R >>"))
  }

  /** The content stream of the document's page. */
  function ReadPage(data: Bytes): Option<Bytes> {
    match ReadRoot(data)
    case None => None
    case Some(root) =>
      match ReadReference(data, root, Catalog().0, Catalog().1)
      case None => None
      case Some(pages) =>
        match ReadReference(data, pages, Pages().0, Pages().1)
        case None => None
        case Some(page) =>
          match ReadReference(data, page, Page().0, Page().1)
          case None => None
          case Some(contents) => ReadStream(data, contents)
  }

  lemma CatalogRefersToPages(text: string)
    ensures PageObjects(text)[0] == Catalog().0 + Numeral(2) + Catalog().1 && Catalog().1[0] == 32
  {
    assert Numeral(2) == [50];
  }

  lemma PagesReferToPage(text: string)
    ensures PageObjects(text)[1] == Pages().0 + Numeral(3) + Pages().1 && Pages().1[0] == 32
  {
    assert Numeral(3) == [51];
  }

  lemma PageRefersToContents(text: string)
    ensures PageObjects(text)[2] == Page().0 + Numeral(4) + Page().1 && Page().1[0] == 32
  {
    assert Numeral(4) == [52];
    var opening := "<< /Type /Page /Parent 2 0 R /MediaBox [0 0 595 842] "
                   + "/Resources << /Font << /F1 5 0 R >> >> /Contents ";
    assert "<< /Type /Page /Parent 2 0 R /MediaBox [0 0 595 842] "
           + "/Resources << /Font << /F1 5 0 R >> >> /Contents 4 0 R >>" == opening + "4 0 R >>";
    Latin1Splits(opening, "4 0 R >>");
    assert Latin1("4 0 R >>") == [52] + Latin1(" 0 R >>");
  }

  lemma FirstOffsetsAreSmall(text: string, i: nat)
    requires i < 4
    ensures Offsets(PageObjects(text))[i] < 10_000_000_000
  {
    ContentOffsetIsSmall(text);
    OffsetsAscend(PageObjects(text), i, 3);
  }

  // The table leads to the page's own three dictionaries.
  ghost predicate Serves(data: Bytes, text: string) {
    && Holds(data, 1, Catalog().0 + Numeral(2) + Catalog().1)
    && Holds(data, 2, Pages().0 + Numeral(3) + Pages().1)
    && Holds(data, 3, Page().0 + Numeral(4) + Page().1)
  }

  lemma ServedReferences(data: Bytes, text: string)
    requires Serves(data, text)
    ensures ReadReference(data, 1, Catalog().0, Catalog().1) == Some(2)
    ensures ReadReference(data, 2, Pages().0, Pages().1) == Some(3)
    ensures ReadReference(data, 3, Page().0, Page().1) == Some(4)
  {
    CatalogRefersToPages(text);
    PagesReferToPage(text);
    PageRefersToContents(text);
    ReferenceReads(data, 1, Catalog().0, 2, Catalog().1);
    ReferenceReads(data, 2, Pages().0, 3, Pages().1);
    ReferenceReads(data, 3, Page().0, 4, Page().1);
  }

  lemma PdfServes(text: string)
    ensures Serves(Pdf(PageObjects(text)), text)
  {
    CatalogRefersToPages(text);
    PagesReferToPage(text);
    PageRefersToContents(text);
    PdfHoldsThree(PageObjects(text), text);
    assert Holds(Pdf(PageObjects(text)), 0 + 1, PageObjects(text)[0]);
    assert Holds(Pdf(PageObjects(text)), 1 + 1, PageObjects(text)[1]);
    assert Holds(Pdf(PageObjects(text)), 2 + 1, PageObjects(text)[2]);
  }

  lemma PdfHoldsThree(objects: seq<Bytes>, text: string)
    requires objects == PageObjects(text)
    ensures forall i :: 0 <= i < 3 ==> Holds(Pdf(objects), i + 1, objects[i])
  {
    forall i | 0 <= i < 3 ensures Holds(Pdf(objects), i + 1, objects[i]) {
      FirstOffsetsAreSmall(text, i);
      PdfHolds(objects, i);
    }
  }

  // From a root that was read, the references lead to the content stream.
  lemma ReferencesLead(data: Bytes, stream: Bytes)
    requires ReadReference(data, 1, Catalog().0, Catalog().1) == Some(2)
    requires ReadReference(data, 2, Pages().0, Pages().1) == Some(3)
    requires ReadReference(data, 3, Page().0, Page().1) == Some(4)
    requires ReadStream(data, 4) == Some(stream)
    ensures ReadPage(data) == if ReadRoot(data) == Some(1) then Some(stream) else ReadPage(data)
    ensures ReadRoot(data) == None ==> ReadPage(data) == None
  {
  }

  lemma PageHasTenDigitsIff(text: string)
    ensures TenDigits(Offsets(PageObjects(text))) <==> Offsets(PageObjects(text))[4] < 10_000_000_000
  {
    FirstOffsetsAreSmall(text, 0);
    FirstOffsetsAreSmall(text, 1);
    FirstOffsetsAreSmall(text, 2);
    FirstOffsetsAreSmall(text, 3);
    LastOfFive(Offsets(PageObjects(text)));
  }

  lemma LastOfFive(offsets: seq<nat>)
    requires |offsets| == 5
    requires offsets[0] < 10_000_000_000 && offsets[1] < 10_000_000_000
    requires offsets[2] < 10_000_000_000 && offsets[3] < 10_000_000_000
    ensures TenDigits(offsets) <==> offsets[4] < 10_000_000_000
  {
    if TenDigits(offsets) {
      assert offsets[4] < 10_000_000_000;
    }
  }

  /** The document holds together.  From the end of the file, a reader reaches the page's content
      stream through table, trailer, catalog, pages and page iff the last object's offset still
      has ten digits; and else it gets nothing. */
  lemma PageIsReachedIff(text: string)
    ensures ReadPage(Pdf(PageObjects(text))) ==
              if Offsets(PageObjects(text))[4] < 10_000_000_000 then Some(ContentStream(text)) else None
  {
    RootReadsIff(PageObjects(text));
    PageHasTenDigitsIff(text);
    PdfServes(text);
    ServedReferences(Pdf(PageObjects(text)), text);
    PageTextReadsBack(text);
    ReferencesLead(Pdf(PageObjects(text)), ContentStream(text));
  }

  // ---------------------------------------------------------------- from the page to the text

  function AsText(b: Bytes): string {
    seq(|b|, i requires 0 <= i < |b| => b[i] as int as char)
  }

  /** Which texts survive the whole way: those that Latin-1 can write and that hold no carriage
      return.  For every text the reader finds the encoded one, line ends read as LF. */
  lemma PageShowsTextIff(text: string)
    requires Offsets(PageObjects(text))[4] < 10_000_000_000
    ensures ReadPage(Pdf(PageObjects(text))).Some?
    ensures var shown := ShownText(ReadPage(Pdf(PageObjects(text))).value);
            && shown == Some(LinesAsLf(Latin1(text)))
            && (AsText(shown.value) == text <==> '\r' !in text && forall i :: 0 <= i < |text| ==> text[i] as int < 256)
            && ('\r' !in text ==>
                  && |shown.value| == |text|
                  && forall i :: 0 <= i < |text| && text[i] as int >= 256 ==> AsText(shown.value)[i] == '?')
  {
    PageIsReachedIff(text);
    TextReadsBack(text);
    SurvivesIff(text);
    QuestionMarks(text);
  }

  // Other characters show as question marks.
  lemma QuestionMarks(text: string)
    ensures '\r' !in text ==>
              var shown := LinesAsLf(Latin1(text));
              |shown| == |text| && forall i :: 0 <= i < |text| && text[i] as int >= 256 ==> AsText(shown)[i] == '?'
  {
    LinesAsLfHasNoCr(Latin1(text));
    if '\r' !in text {
      assert CR !in Latin1(text);
    }
  }

  lemma SurvivesIff(text: string)
    ensures AsText(LinesAsLf(Latin1(text))) == text
       <==> '\r' !in text && forall i :: 0 <= i < |text| ==> text[i] as int < 256
  {
    var b := Latin1(text);
    LinesAsLfHasNoCr(b);
    if '\r' in text {
      assert '\r' !in AsText(LinesAsLf(b));
    } else {
      assert CR !in b;
      forall i | 0 <= i < |text| ensures AsText(b)[i] == text[i] <==> text[i] as int < 256 {
      }
    }
  }

  // ---------------------------------------------------------------- around the objects

  /** The file opens with its version and a comment of bytes that mark it as binary (section 7.5.2
      of ISO 32000-1). */
  lemma FileOpens(objects: seq<Bytes>)
    ensures At(Pdf(objects), 0, Latin1("%PDF-1.4\n%"))
    ensures forall i :: 10 <= i < 14 ==> i < |Pdf(objects)| && Pdf(objects)[i] >= 128
    ensures At(Pdf(objects), 14, NEWLINE)
  {
    BodyOpensWithPreamble(objects);
    BodyOpensPdf(objects, 0, Preamble());
    PreambleParts(Pdf(objects));
  }

  lemma BodyOpensWithPreamble(objects: seq<Bytes>)
    ensures At(Body(objects), 0, Preamble())
  {
    BodyIsPrefix(objects, 0);
    assert objects[..0] == [];
  }

  lemma PreambleParts(data: Bytes)
    requires At(data, 0, Preamble())
    ensures At(data, 0, Latin1("%PDF-1.4\n%")) && At(data, 14, NEWLINE)
    ensures forall i :: 10 <= i < 14 ==> i < |data| && data[i] >= 128
  {
    AtBoth(data, 0, Latin1("%PDF-1.4\n%") + [0xe2, 0xe3, 0xcf, 0xd3], NEWLINE);
    AtBoth(data, 0, Latin1("%PDF-1.4\n%"), [0xe2, 0xe3, 0xcf, 0xd3]);
    var marks := data[10..14];
    assert marks == [0xe2, 0xe3, 0xcf, 0xd3];
    forall i | 10 <= i < 14 ensures data[i] >= 128 {
      assert data[i] == marks[i - 10];
    }
  }

  /** Every object is closed by its keyword on a line of its own. */
  lemma ObjectCloses(objects: seq<Bytes>, i: nat, closing: Bytes)
    requires i < |objects|
    requires closing == if objects[i] != [] && objects[i][|objects[i]| - 1] == LF then Latin1("endobj\n")
                        else Latin1("\nendobj\n")
    ensures At(Pdf(objects), Offsets(objects)[i] + |ObjectHeader(i + 1)| + |objects[i]|, closing)
  {
    ClosingIs(objects[i]);
    ClosingInPdf(objects, i, closing);
  }

  lemma ClosingInPdf(objects: seq<Bytes>, i: nat, closing: Bytes)
    requires i < |objects| && closing == Closing(objects[i])
    ensures At(Pdf(objects), Offsets(objects)[i] + |ObjectHeader(i + 1)| + |objects[i]|, closing)
  {
    ClosingInBody(objects, i, closing);
    BodyOpensPdf(objects, Offsets(objects)[i] + |ObjectHeader(i + 1)| + |objects[i]|, closing);
  }

  lemma BodyOpensPdf(objects: seq<Bytes>, position: nat, piece: Bytes)
    ensures At(Body(objects), position, piece) ==> At(Pdf(objects), position, piece)
  {
    if At(Body(objects), position, piece) {
      PdfIsLaid(objects);
      LaidCarries(Pdf(objects), Body(objects), SectionHeader(|objects| + 1), Entries(Offsets(objects)),
                  Trailer(|objects| + 1), position, piece);
    }
  }

  lemma ObjectBytesAtOffset(objects: seq<Bytes>, i: nat)
    requires i < |objects|
    ensures At(Body(objects), Offsets(objects)[i], ObjectBytes(i + 1, objects[i]))
  {
    BodyIsPrefix(objects, i);
    BodyIsPrefix(objects, i + 1);
    BodyGrows(objects, i);
    AtEnd(Body(objects[..i]), ObjectBytes(i + 1, objects[i]));
    PrefixCarries(Body(objects), Body(objects[..i + 1]), |Body(objects[..i])|, ObjectBytes(i + 1, objects[i]));
  }

  lemma AtEnd(before: Bytes, piece: Bytes)
    ensures At(before + piece, |before|, piece)
  {
  }

  lemma ClosingInBody(objects: seq<Bytes>, i: nat, closing: Bytes)
    requires i < |objects| && closing == Closing(objects[i])
    ensures At(Body(objects), Offsets(objects)[i] + |ObjectHeader(i + 1)| + |objects[i]|, closing)
  {
    ObjectBytesAtOffset(objects, i);
    ClosingStands(i + 1, objects[i]);
    PartStands(Body(objects), Offsets(objects)[i], ObjectBytes(i + 1, objects[i]),
               |ObjectHeader(i + 1)| + |objects[i]|, closing);
    assert Offsets(objects)[i] + (|ObjectHeader(i + 1)| + |objects[i]|)
        == Offsets(objects)[i] + |ObjectHeader(i + 1)| + |objects[i]|;
  }

  lemma PartStands(data: Bytes, position: nat, piece: Bytes, k: nat, part: Bytes)
    ensures At(data, position, piece) && At(piece, k, part) ==> At(data, position + k, part)
  {
    if At(data, position, piece) && At(piece, k, part) {
      AtWithin(data, position, piece, k, part);
    }
  }

  function Closing(content: Bytes): Bytes {
    LineEnd(content) + Latin1("endobj\n")
  }

  lemma ClosingIs(content: Bytes)
    ensures Closing(content) == if content != [] && content[|content| - 1] == LF then Latin1("endobj\n")
                                else Latin1("\nendobj\n")
  {
    assert NEWLINE + Latin1("endobj\n") == Latin1("\nendobj\n");
    assert [] + Latin1("endobj\n") == Latin1("endobj\n");
  }

  lemma ClosingStands(number: nat, content: Bytes)
    ensures At(ObjectBytes(number, content), |ObjectHeader(number)| + |content|, Closing(content))
  {
    var piece := ObjectHeader(number) + content;
    assert ObjectBytes(number, content) == piece + Closing(content);
    AtEnd(piece, Closing(content));
  }
}
