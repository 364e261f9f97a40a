/** Text in a PDF literal string (scripts/e2e_sgraph_real_path.py): escaping by chained replaces,
    the Latin-1 encoding, and the reader of section 7.3.4.2 of ISO 32000-1 as its partner. */
module PdfText {
  import opened Common

  /** `s.replace(c, r)` for a one-character `c` */
  function Replace(s: string, c: char, r: string): string {
    if s == "" then "" else (if s[0] == c then r else [s[0]]) + Replace(s[1..], c, r)
  }

  /** `esc_pdf` */
  function Escape(s: string): string {
    Replace(Replace(Replace(s, '\\', "\\\\"), '(', "\\("), ')', "\\)")
  }

  // The escape in one pass: a backslash in front of each special character.
  function EscapeOnce(s: string): string {
    if s == "" then ""
    else (if s[0] == '\\' || s[0] == '(' || s[0] == ')' then ['\\', s[0]] else [s[0]]) + EscapeOnce(s[1..])
  }

  /** `s.encode("latin-1", errors="replace")` */
  function Latin1(s: string): Bytes {
    seq(|s|, i requires 0 <= i < |s| => if s[i] as int < 256 then s[i] as int else 63)
  }

  const LF: Byte := 10
  const CR: Byte := 13
  const OPEN: Byte := 40
  const CLOSE: Byte := 41
  const BACKSLASH: Byte := 92

  predicate Special(b: Byte) {
    b == OPEN || b == CLOSE || b == BACKSLASH
  }

  // The one-pass escape on bytes.
  function EscapeBytes(b: Bytes): Bytes {
    if b == [] then [] else (if Special(b[0]) then [BACKSLASH, b[0]] else [b[0]]) + EscapeBytes(b[1..])
  }

  lemma {:induction false} ReplaceSplits(a: string, b: string, c: char, r: string)
    ensures Replace(a + b, c, r) == Replace(a, c, r) + Replace(b, c, r)
  {
    if a == "" {
      assert a + b == b;
    } else {
      assert (a + b)[1..] == a[1..] + b;
      ReplaceSplits(a[1..], b, c, r);
    }
  }

  lemma ReplaceOne(x: char, c: char, r: string)
    ensures Replace([x], c, r) == if x == c then r else [x]
  {
    assert [x][1..] == "";
  }

  lemma ReplaceTwo(x: char, y: char, c: char, r: string)
    requires x != c
    ensures Replace([x, y], c, r) == [x] + if y == c then r else [y]
  {
    assert [x, y][1..] == [y];
    ReplaceOne(y, c, r);
  }

  /** The three chained replaces, backslash first, are the one-pass escape. */
  lemma {:induction false} EscapeIsOnePass(s: string)
    ensures Escape(s) == EscapeOnce(s)
  {
    if s != "" {
      EscapeIsOnePass(s[1..]);
      var x := s[0];
      var first := if x == '\\' then "\\\\" else [x];
      ReplaceOne(x, '\\', "\\\\");
      var rest := Replace(s[1..], '\\', "\\\\");
      ReplaceSplits(first, rest, '(', "\\(");
      var second := Replace(first, '(', "\\(");
      ReplaceOne(x, '(', "\\(");
      ReplaceTwo('\\', '\\', '(', "\\(");
      assert second == if x == '\\' then "\\\\" else if x == '(' then "\\(" else [x];
      ReplaceSplits(second, Replace(rest, '(', "\\("), ')', "\\)");
      ReplaceOne(x, ')', "\\)");
      ReplaceTwo('\\', '\\', ')', "\\)");
      ReplaceTwo('\\', '(', ')', "\\)");
    }
  }

  lemma Latin1Splits(a: string, b: string)
    ensures Latin1(a + b) == Latin1(a) + Latin1(b)
  {
  }

  /** Escaping commutes with the encoding, replaced characters included. */
  lemma {:induction false} EscapeCommutes(s: string)
    ensures Latin1(Escape(s)) == EscapeBytes(Latin1(s))
  {
    EscapeIsOnePass(s);
    if s != "" {
      EscapeIsOnePass(s[1..]);
      EscapeCommutes(s[1..]);
      var first := if s[0] == '\\' || s[0] == '(' || s[0] == ')' then ['\\', s[0]] else [s[0]];
      Latin1Splits(first, EscapeOnce(s[1..]));
      assert Latin1(s)[1..] == Latin1(s[1..]);
      assert Latin1(first) == if Special(Latin1(s)[0]) then [BACKSLASH, Latin1(s)[0]] else [Latin1(s)[0]];
    }
  }

  // ---------------------------------------------------------------- reading it back

  predicate IsOctal(b: Byte) {
    48 <= b < 56
  }

  // What a backslash and a single character stand for.
  function EscapedByte(b: Byte): Byte {
    if b == 110 then LF
    else if b == 114 then CR
    else if b == 116 then 9
    else if b == 98 then 8
    else if b == 102 then 12
    else b
  }

  function OctalLength(b: Bytes): (n: nat)
    requires b != [] && IsOctal(b[0])
    ensures 1 <= n <= 3 && n <= |b|
  {
    if |b| >= 2 && IsOctal(b[1]) then if |b| >= 3 && IsOctal(b[2]) then 3 else 2 else 1
  }

  function OctalValue(b: Bytes): nat {
    if b == [] then 0 else OctalValue(b[..|b| - 1]) * 8 + (if b[|b| - 1] >= 48 then b[|b| - 1] - 48 else 0)
  }

  /** The contents of a literal string as section 7.3.4.2 of ISO 32000-1 reads them: the escapes of
      its table 3, octal codes, line continuations, and every bare end-of-line marker as LF. */
  function Unescape(b: Bytes): Bytes {
    if b == [] then []
    else if b[0] == BACKSLASH then
      if |b| == 1 then []
      else if b[1] == CR then Unescape(if |b| > 2 && b[2] == LF then b[3..] else b[2..])
      else if b[1] == LF then Unescape(b[2..])
      else if IsOctal(b[1]) then
        var n := OctalLength(b[1..]);
        [OctalValue(b[1..1 + n]) % 256] + Unescape(b[1 + n..])
      else [EscapedByte(b[1])] + Unescape(b[2..])
    else if b[0] == CR then [LF] + Unescape(if |b| > 1 && b[1] == LF then b[2..] else b[1..])
    else [b[0]] + Unescape(b[1..])
  }

  // CR and CR LF read as LF.
  function LinesAsLf(b: Bytes): Bytes {
    if b == [] then []
    else if b[0] == CR then [LF] + LinesAsLf(if |b| > 1 && b[1] == LF then b[2..] else b[1..])
    else [b[0]] + LinesAsLf(b[1..])
  }

  lemma {:induction false} UnescapeEscape(b: Bytes)
    ensures Unescape(EscapeBytes(b)) == LinesAsLf(b)
  {
    if b != [] {
      UnescapeEscape(b[1..]);
      var e := EscapeBytes(b);
      var rest := EscapeBytes(b[1..]);
      if Special(b[0]) {
        assert e == [BACKSLASH, b[0]] + rest && e[2..] == rest;
      } else {
        assert e == [b[0]] + rest && e[1..] == rest;
        if b[0] == CR && |b| > 1 {
          if b[1] == LF {
            UnescapeEscape(b[2..]);
            assert rest == [LF] + EscapeBytes(b[1..][1..]);
            assert b[1..][1..] == b[2..];
            assert e[2..] == EscapeBytes(b[2..]);
          } else {
            assert rest[0] == if Special(b[1]) then BACKSLASH else b[1];
          }
        }
      }
    }
  }

  lemma {:induction false} LinesAsLfHasNoCr(b: Bytes)
    ensures CR !in LinesAsLf(b)
    ensures CR !in b ==> LinesAsLf(b) == b
  {
    if b != [] {
      LinesAsLfHasNoCr(b[1..]);
      if |b| > 1 { LinesAsLfHasNoCr(b[2..]); }
    }
  }

  /** A reader gets the escaped bytes back iff they hold no carriage return. */
  lemma {:induction false} UnescapeEscapeIff(b: Bytes)
    ensures Unescape(EscapeBytes(b)) == b <==> CR !in b
  {
    UnescapeEscape(b);
    LinesAsLfHasNoCr(b);
  }

  /** Where the parenthesis that closes a literal string stands, counting from just after the
      opening one; balanced parentheses inside need no escape. */
  function ClosingParen(b: Bytes, depth: nat): Option<nat> {
    if b == [] then None
    else if b[0] == BACKSLASH then
      if |b| == 1 then None else Plus(2, ClosingParen(b[2..], depth))
    else if b[0] == CLOSE && depth == 0 then Some(0)
    else Plus(1, ClosingParen(b[1..], if b[0] == OPEN then depth + 1 else if b[0] == CLOSE then depth - 1 else depth))
  }

  function Plus(k: nat, n: Option<nat>): Option<nat> {
    match n
    case Some(v) => Some(k + v)
    case None => None
  }

  /** A scanner stops exactly at the parenthesis the writer put after the escaped text, whatever
      follows. */
  lemma {:induction false} ScannerStops(b: Bytes, rest: Bytes)
    ensures ClosingParen(EscapeBytes(b) + [CLOSE] + rest, 0) == Some(|EscapeBytes(b)|)
  {
    var all := EscapeBytes(b) + [CLOSE] + rest;
    if b != [] {
      ScannerStops(b[1..], rest);
      var tail := EscapeBytes(b[1..]) + [CLOSE] + rest;
      if Special(b[0]) {
        assert all[0] == BACKSLASH && all[2..] == tail;
      } else {
        assert all[0] == b[0] && all[1..] == tail;
      }
    }
  }

  /** The page's content stream. */
  function ContentStream(text: string): Bytes {
    Latin1("BT /F1 14 Tf 72 720 Td (" + Escape(text) + ") Tj ET")
  }

  // The first opening parenthesis.
  function FirstOpen(b: Bytes): Option<nat> {
    if b == [] then None else if b[0] == OPEN then Some(0) else Plus(1, FirstOpen(b[1..]))
  }

  lemma {:induction false} FirstOpenAt(b: Bytes, k: nat)
    requires k < |b| && b[k] == OPEN && forall i :: 0 <= i < k ==> b[i] != OPEN
    ensures FirstOpen(b) == Some(k)
  {
    if k > 0 { FirstOpenAt(b[1..], k - 1); }
  }

  /** What a content stream shows: its first literal string, scanned and unescaped. */
  function ShownText(stream: Bytes): Option<Bytes> {
    match FirstOpen(stream)
    case None => None
    case Some(open) =>
      if open >= |stream| then None
      else
        var rest := stream[open + 1..];
        match ClosingParen(rest, 0)
        case None => None
        case Some(close) => if close <= |rest| then Some(Unescape(rest[..close])) else None
  }

  const BEFORE_TEXT: string := "BT /F1 14 Tf 72 720 Td ("

  lemma OpensOnce()
    ensures var b := Latin1(BEFORE_TEXT); |b| == 24 && b[23] == OPEN && forall i :: 0 <= i < 23 ==> b[i] != OPEN
  {
  }

  // The content stream, taken apart.
  lemma StreamParts(text: string)
    ensures ContentStream(text) == Latin1(BEFORE_TEXT) + (EscapeBytes(Latin1(text)) + [CLOSE] + Latin1(" Tj ET"))
  {
    EscapeCommutes(text);
    assert "BT /F1 14 Tf 72 720 Td (" + Escape(text) + ") Tj ET" == BEFORE_TEXT + Escape(text) + (")" + " Tj ET");
    Latin1Splits(BEFORE_TEXT + Escape(text), ")" + " Tj ET");
    Latin1Splits(BEFORE_TEXT, Escape(text));
    Latin1Splits(")", " Tj ET");
    assert Latin1(")") == [CLOSE];
  }

  /** End to end for one page: a reader that scans the literal string of the content stream and
      unescapes it finds the encoded text, line ends read as LF; that is the encoded text itself
      iff it holds no carriage return. */
  lemma TextReadsBack(text: string)
    ensures ShownText(ContentStream(text)) == Some(LinesAsLf(Latin1(text)))
    ensures ShownText(ContentStream(text)) == Some(Latin1(text)) <==> CR !in Latin1(text)
  {
    var stream := ContentStream(text);
    var escaped := EscapeBytes(Latin1(text));
    var rest := escaped + [CLOSE] + Latin1(" Tj ET");
    StreamParts(text);
    OpensOnce();
    FirstOpenAt(stream, 23);
    assert stream[24..] == rest;
    ScannerStops(Latin1(text), Latin1(" Tj ET"));
    assert rest[..|escaped|] == escaped;
    UnescapeEscape(Latin1(text));
    UnescapeEscapeIff(Latin1(text));
  }
}
