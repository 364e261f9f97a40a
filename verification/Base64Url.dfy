/** Unpadded base64url (section 5 of RFC 4648, padding dropped per its section 3.2), as
    connector/security.py writes it: the padded URL-safe encoding with its `=` stripped. */
module Base64Url {
  import opened Common

  // The URL-safe alphabet of RFC 4648, table 2.
  function Symbol(v: int): char
    requires 0 <= v < 64
  {
    if v < 26 then ('A' as int + v) as char
    else if v < 52 then ('a' as int + v - 26) as char
    else if v < 62 then ('0' as int + v - 52) as char
    else if v == 62 then '-'
    else '_'
  }

  function Value(c: char): Option<int> {
    if 'A' <= c <= 'Z' then Some(c as int - 'A' as int)
    else if 'a' <= c <= 'z' then Some(c as int - 'a' as int + 26)
    else if '0' <= c <= '9' then Some(c as int - '0' as int + 52)
    else if c == '-' then Some(62)
    else if c == '_' then Some(63)
    else None
  }

  type Sextet = v: int | 0 <= v < 64

  /** Three bytes make four sextets; one or two left over make two or three, filled with zeros. */
  function Sextets(data: Bytes): seq<Sextet> {
    if |data| == 0 then []
    else if |data| == 1 then [data[0] / 4, data[0] % 4 * 16]
    else if |data| == 2 then [data[0] / 4, data[0] % 4 * 16 + data[1] / 16, data[1] % 16 * 4]
    else
      [data[0] / 4, data[0] % 4 * 16 + data[1] / 16, data[1] % 16 * 4 + data[2] / 64, data[2] % 64] + Sextets(data[3..])
  }

  function Symbols(values: seq<Sextet>): string {
    seq(|values|, i requires 0 <= i < |values| => Symbol(values[i]))
  }

  /** `base64.urlsafe_b64encode`: the last group is filled up to four symbols with `=`. */
  function PaddedEncode(data: Bytes): string {
    Symbols(Sextets(data)) + seq((3 - |data| % 3) % 3, _ => '=')
  }

  /** `str.rstrip("=")` */
  function DropPadding(s: string): string {
    if s != "" && s[|s| - 1] == '=' then DropPadding(s[..|s| - 1]) else s
  }

  /** `b64url_encode` */
  function Encode(data: Bytes): string {
    DropPadding(PaddedEncode(data))
  }

  predicate InAlphabet(s: string) {
    forall i :: 0 <= i < |s| ==> Value(s[i]).Some?
  }

  function Values(s: string): seq<Sextet>
    requires InAlphabet(s)
  {
    seq(|s|, i requires 0 <= i < |s| => ValueSymbol(s[i]); Value(s[i]).value)
  }

  // The bytes that adjacent sextets share.
  function First(a: Sextet, b: Sextet): Byte { a as int * 4 + b as int / 16 }
  function Second(b: Sextet, c: Sextet): Byte { b as int % 16 * 16 + c as int / 4 }
  function Third(c: Sextet, d: Sextet): Byte { c as int % 4 * 64 + d as int }

  // Whole groups of four, then a last group of two or three whose unused low bits are zero.
  function FromSextets(v: seq<Sextet>): Option<Bytes> {
    if |v| == 0 then Some([])
    else if |v| == 1 then None
    else if |v| == 2 then
      if v[1] % 16 == 0 then Some([First(v[0], v[1])]) else None
    else if |v| == 3 then
      if v[2] % 4 == 0 then Some([First(v[0], v[1]), Second(v[1], v[2])]) else None
    else
      match FromSextets(v[4..])
      case Some(rest) => Some([First(v[0], v[1]), Second(v[1], v[2]), Third(v[2], v[3])] + rest)
      case None => None
  }

  /** A strict decoder, written from the RFC and not from the encoder. */
  function Decode(s: string): Option<Bytes> {
    if InAlphabet(s) then FromSextets(Values(s)) else None
  }

  lemma SymbolValue(v: Sextet)
    ensures Value(Symbol(v)) == Some(v) && Symbol(v) != '='
  {
  }

  lemma ValueSymbol(c: char)
    requires Value(c).Some?
    ensures 0 <= Value(c).value < 64 && Symbol(Value(c).value) == c
  {
  }

  // Symbols and values are inverse, position by position.
  lemma ValuesOfSymbols(values: seq<Sextet>)
    ensures InAlphabet(Symbols(values)) && Values(Symbols(values)) == values
    ensures '=' !in Symbols(values)
  {
    forall i | 0 <= i < |values| ensures Value(Symbols(values)[i]) == Some(values[i]) && Symbols(values)[i] != '=' {
      SymbolValue(values[i]);
    }
  }

  lemma SymbolsOfValues(s: string)
    requires InAlphabet(s)
    ensures Symbols(Values(s)) == s
  {
    forall i | 0 <= i < |s| ensures Symbols(Values(s))[i] == s[i] {
      ValueSymbol(s[i]);
    }
  }

  lemma {:induction false} SextetCount(data: Bytes)
    ensures |Sextets(data)| == (4 * |data| + 2) / 3
  {
    if |data| >= 3 { SextetCount(data[3..]); }
  }

  // One group, there and back.
  lemma GroupOfBytes(x: Byte, y: Byte, z: Byte)
    ensures First(x / 4, x % 4 * 16 + y / 16) == x
    ensures Second(x % 4 * 16 + y / 16, y % 16 * 4 + z / 64) == y
    ensures Third(y % 16 * 4 + z / 64, z % 64) == z
  {
  }

  lemma GroupOfSextets(a: Sextet, b: Sextet, c: Sextet, d: Sextet)
    ensures First(a, b) / 4 == a
    ensures First(a, b) % 4 * 16 + Second(b, c) / 16 == b
    ensures Second(b, c) % 16 * 4 + Third(c, d) / 64 == c
    ensures Third(c, d) % 64 == d
  {
  }

  lemma SextetsOfGroup(x: Byte, y: Byte, z: Byte, rest: Bytes)
    ensures Sextets([x, y, z] + rest) == [x / 4, x % 4 * 16 + y / 16, y % 16 * 4 + z / 64, z % 64] + Sextets(rest)
  {
    var data := [x, y, z] + rest;
    assert data[0] == x && data[1] == y && data[2] == z && data[3..] == rest;
  }

  lemma FromGroup(a: Sextet, b: Sextet, c: Sextet, d: Sextet, rest: seq<Sextet>)
    ensures FromSextets([a, b, c, d] + rest)
         == match FromSextets(rest)
            case Some(bytes) => Some([First(a, b), Second(b, c), Third(c, d)] + bytes)
            case None => None
  {
    var v := [a, b, c, d] + rest;
    assert v[0] == a && v[1] == b && v[2] == c && v[3] == d && v[4..] == rest;
  }

  lemma {:induction false} FromToSextets(data: Bytes)
    ensures FromSextets(Sextets(data)) == Some(data)
  {
    if |data| >= 3 {
      var x, y, z, rest := data[0], data[1], data[2], data[3..];
      assert data == [x, y, z] + rest;
      FromToSextets(rest);
      SextetsOfGroup(x, y, z, rest);
      FromGroup(x / 4, x % 4 * 16 + y / 16, y % 16 * 4 + z / 64, z % 64, Sextets(rest));
      GroupOfBytes(x, y, z);
    } else if |data| == 2 {
      TwoBytes(data[0], data[1]);
      assert data == [data[0], data[1]];
    } else if |data| == 1 {
      OneByte(data[0]);
      assert data == [data[0]];
    }
  }

  lemma OneByte(x: Byte)
    ensures FromSextets(Sextets([x])) == Some([x])
  {
    GroupOfBytes(x, 0, 0);
    assert Sextets([x]) == [x / 4, x % 4 * 16];
  }

  lemma TwoBytes(x: Byte, y: Byte)
    ensures FromSextets(Sextets([x, y])) == Some([x, y])
  {
    GroupOfBytes(x, y, 0);
    assert Sextets([x, y]) == [x / 4, x % 4 * 16 + y / 16, y % 16 * 4];
  }

  lemma {:induction false} ToFromSextets(v: seq<Sextet>)
    requires FromSextets(v).Some?
    ensures Sextets(FromSextets(v).value) == v
  {
    if |v| >= 4 {
      var a, b, c, d, rest := v[0], v[1], v[2], v[3], v[4..];
      assert v == [a, b, c, d] + rest;
      FromGroup(a, b, c, d, rest);
      ToFromSextets(rest);
      GroupBack(a, b, c, d, rest, FromSextets(rest).value);
    } else {
      ShortToFrom(v);
    }
  }

  lemma GroupBack(a: Sextet, b: Sextet, c: Sextet, d: Sextet, rest: seq<Sextet>, bytes: Bytes)
    requires Sextets(bytes) == rest
    ensures Sextets([First(a, b), Second(b, c), Third(c, d)] + bytes) == [a, b, c, d] + rest
  {
    SextetsOfGroup(First(a, b), Second(b, c), Third(c, d), bytes);
    GroupOfSextets(a, b, c, d);
  }

  lemma ShortToFrom(v: seq<Sextet>)
    requires |v| < 4 && FromSextets(v).Some?
    ensures Sextets(FromSextets(v).value) == v
  {
    if |v| == 3 {
      GroupOfSextets(v[0], v[1], v[2], 0);
    } else if |v| == 2 {
      GroupOfSextets(v[0], v[1], 0, 0);
    }
  }

  lemma {:induction false} DropsPadding(s: string, n: nat)
    requires '=' !in s
    ensures DropPadding(s + seq(n, _ => '=')) == s
  {
    var padded := s + seq(n, _ => '=');
    if n == 0 {
      assert padded == s;
    } else {
      assert padded[..|padded| - 1] == s + seq(n - 1, _ => '=');
      DropsPadding(s, n - 1);
    }
  }

  lemma EncodeIsSymbols(data: Bytes)
    ensures Encode(data) == Symbols(Sextets(data))
  {
    ValuesOfSymbols(Sextets(data));
    DropsPadding(Symbols(Sextets(data)), (3 - |data| % 3) % 3);
  }

  /** The result has no padding and no symbol outside the alphabet, and its length is four
      thirds of the input's, rounded up: 43 for a 32-byte digest. */
  lemma EncodeShape(data: Bytes)
    ensures InAlphabet(Encode(data)) && '=' !in Encode(data)
    ensures |Encode(data)| == (4 * |data| + 2) / 3
    ensures |data| == 32 ==> |Encode(data)| == 43
  {
    EncodeIsSymbols(data);
    ValuesOfSymbols(Sextets(data));
    SextetCount(data);
  }

  /** The decoder undoes the encoder on every byte string. */
  lemma DecodeEncode(data: Bytes)
    ensures Decode(Encode(data)) == Some(data)
  {
    EncodeIsSymbols(data);
    ValuesOfSymbols(Sextets(data));
    FromToSextets(data);
  }

  /** And the encoder undoes the decoder: the two are inverse bijections between byte strings and
      the strings the decoder accepts. */
  lemma EncodeDecode(s: string)
    requires Decode(s).Some?
    ensures Encode(Decode(s).value) == s
  {
    EncodeIsSymbols(Decode(s).value);
    ToFromSextets(Values(s));
    SymbolsOfValues(s);
  }

  lemma EncodeInjective(a: Bytes, b: Bytes)
    requires Encode(a) == Encode(b)
    ensures a == b
  {
    DecodeEncode(a);
    DecodeEncode(b);
  }

  // ---------------------------------------------------------------- bit by bit

  // The alphabet of RFC 4648, table 2, in order.
  const UPPER: string := "ABCDEFGHIJKLMNOPQRSTUVWXYZ"
  const LOWER: string := "abcdefghijklmnopqrstuvwxyz"
  const DIGITS: string := "0123456789"

  // A byte halved some times.
  function Halved(x: Byte, times: nat): Byte {
    if times == 0 then x else Halved(x, times - 1) / 2
  }

  // The bits of a byte, the most significant first.
  function BitOf(x: Byte, i: nat): int
    requires i < 8
  {
    Halved(x, 7 - i) % 2
  }

  // The bits of the data in a row; behind its end there are zeros.
  function BitAt(data: Bytes, i: nat): int {
    if i / 8 < |data| then BitOf(data[i / 8], i % 8) else 0
  }

  // Six bits in a row as a number.
  function SixBits(data: Bytes, i: nat): int {
    32 * BitAt(data, i) + 16 * BitAt(data, i + 1) + 8 * BitAt(data, i + 2)
    + 4 * BitAt(data, i + 3) + 2 * BitAt(data, i + 4) + BitAt(data, i + 5)
  }

  lemma Halves(x: Byte)
    ensures Halved(x, 0) == x && Halved(x, 1) == x / 2 && Halved(x, 2) == x / 4 && Halved(x, 3) == x / 8
    ensures Halved(x, 4) == x / 16 && Halved(x, 5) == x / 32 && Halved(x, 6) == x / 64 && Halved(x, 7) == x / 128
  {
    assert Halved(x, 1) == Halved(x, 0) / 2 && Halved(x, 2) == Halved(x, 1) / 2;
    assert Halved(x, 3) == Halved(x, 2) / 2 && Halved(x, 4) == Halved(x, 3) / 2;
    assert Halved(x, 5) == Halved(x, 4) / 2 && Halved(x, 6) == Halved(x, 5) / 2;
    assert Halved(x, 7) == Halved(x, 6) / 2;
  }

  // The upper bits of a byte.
  lemma UpperBits(x: Byte)
    ensures x / 64 == 2 * BitOf(x, 0) + BitOf(x, 1)
    ensures x / 16 == 8 * BitOf(x, 0) + 4 * BitOf(x, 1) + 2 * BitOf(x, 2) + BitOf(x, 3)
    ensures x / 4 == 32 * BitOf(x, 0) + 16 * BitOf(x, 1) + 8 * BitOf(x, 2) + 4 * BitOf(x, 3)
                     + 2 * BitOf(x, 4) + BitOf(x, 5)
  {
    Halves(x);
  }

  // The lower ones.
  lemma LowerBits(x: Byte)
    ensures x % 4 == 2 * BitOf(x, 6) + BitOf(x, 7)
    ensures x % 16 == 8 * BitOf(x, 4) + 4 * BitOf(x, 5) + 2 * BitOf(x, 6) + BitOf(x, 7)
    ensures x % 64 == 32 * BitOf(x, 2) + 16 * BitOf(x, 3) + 8 * BitOf(x, 4) + 4 * BitOf(x, 5)
                      + 2 * BitOf(x, 6) + BitOf(x, 7)
  {
    Halves(x);
  }

  lemma {:induction false} BitsShift(data: Bytes, i: nat)
    requires |data| >= 3
    ensures SixBits(data, i + 24) == SixBits(data[3..], i)
  {
    BitShift(data, i);
    BitShift(data, i + 1);
    BitShift(data, i + 2);
    BitShift(data, i + 3);
    BitShift(data, i + 4);
    BitShift(data, i + 5);
  }

  lemma BitShift(data: Bytes, i: nat)
    requires |data| >= 3
    ensures BitAt(data, i + 24) == BitAt(data[3..], i)
  {
    assert (i + 24) / 8 == i / 8 + 3 && (i + 24) % 8 == i % 8;
  }

  // The bits of the byte a position falls into.
  lemma BitsAt(data: Bytes, j: nat, i: nat)
    requires i < 8
    ensures BitAt(data, 8 * j + i) == if j < |data| then BitOf(data[j], i) else 0
  {
    assert (8 * j + i) / 8 == j && (8 * j + i) % 8 == i;
  }

  lemma FirstSextet(data: Bytes)
    requires |data| > 0
    ensures Sextets(data)[0] == SixBits(data, 0)
  {
    UpperBits(data[0]);
    BitsAt(data, 0, 0);
    BitsAt(data, 0, 1);
    BitsAt(data, 0, 2);
    BitsAt(data, 0, 3);
    BitsAt(data, 0, 4);
    BitsAt(data, 0, 5);
  }

  lemma SecondSextet(data: Bytes)
    requires |data| > 0
    ensures Sextets(data)[1] == SixBits(data, 6)
  {
    LowerBits(data[0]);
    if |data| > 1 { UpperBits(data[1]); }
    BitsAt(data, 0, 6);
    BitsAt(data, 0, 7);
    BitsAt(data, 1, 0);
    BitsAt(data, 1, 1);
    BitsAt(data, 1, 2);
    BitsAt(data, 1, 3);
  }

  lemma ThirdSextet(data: Bytes)
    requires |data| > 1
    ensures Sextets(data)[2] == SixBits(data, 12)
  {
    LowerBits(data[1]);
    if |data| > 2 { UpperBits(data[2]); }
    BitsAt(data, 1, 4);
    BitsAt(data, 1, 5);
    BitsAt(data, 1, 6);
    BitsAt(data, 1, 7);
    BitsAt(data, 2, 0);
    BitsAt(data, 2, 1);
  }

  lemma FourthSextet(data: Bytes)
    requires |data| > 2
    ensures Sextets(data)[3] == SixBits(data, 18)
  {
    LowerBits(data[2]);
    BitsAt(data, 2, 2);
    BitsAt(data, 2, 3);
    BitsAt(data, 2, 4);
    BitsAt(data, 2, 5);
    BitsAt(data, 2, 6);
    BitsAt(data, 2, 7);
  }

  lemma {:induction false} SextetIsSixBits(data: Bytes, k: nat)
    requires k < |Sextets(data)|
    ensures Sextets(data)[k] == SixBits(data, 6 * k)
  {
    if k == 0 {
      FirstSextet(data);
    } else if k == 1 {
      SecondSextet(data);
    } else if k == 2 {
      ThirdSextet(data);
    } else if k == 3 {
      FourthSextet(data);
    } else {
      SextetIsSixBits(data[3..], k - 4);
      LaterSextet(data, k);
    }
  }

  // From the fifth on, they are those of the data without its first three bytes.
  lemma LaterSextet(data: Bytes, k: nat)
    requires 4 <= k < |Sextets(data)|
    ensures |data| >= 3 && k - 4 < |Sextets(data[3..])| && Sextets(data)[k] == Sextets(data[3..])[k - 4]
    ensures SixBits(data, 6 * k) == SixBits(data[3..], 6 * (k - 4))
  {
    var i := 6 * (k - 4);
    BitsShift(data, i);
    assert i + 24 == 6 * k;
  }

  /** The encoding is the RFC's: the k-th symbol is the one of the alphabet that six bits of the
      data, taken in a row and filled up with zeros, number. */
  lemma SymbolsSpellBits(data: Bytes, k: nat)
    requires k < |Encode(data)|
    ensures var v := SixBits(data, 6 * k);
            && 0 <= v < 64
            && (v < 26 ==> Encode(data)[k] == UPPER[v])
            && (26 <= v < 52 ==> Encode(data)[k] == LOWER[v - 26])
            && (52 <= v < 62 ==> Encode(data)[k] == DIGITS[v - 52])
            && (v == 62 ==> Encode(data)[k] == '-')
            && (v == 63 ==> Encode(data)[k] == '_')
  {
    EncodeIsSymbols(data);
    SextetIsSixBits(data, k);
    SymbolIs(Sextets(data)[k]);
  }

  lemma SymbolIs(v: Sextet)
    ensures v < 26 ==> Symbol(v) == UPPER[v]
    ensures 26 <= v < 52 ==> Symbol(v) == LOWER[v - 26]
    ensures 52 <= v < 62 ==> Symbol(v) == DIGITS[v - 52]
    ensures (v == 62 ==> Symbol(v) == '-') && (v == 63 ==> Symbol(v) == '_')
  {
    Alphabets();
  }

  lemma Alphabets()
    ensures |UPPER| == |LOWER| == 26 && |DIGITS| == 10
    ensures forall v :: 0 <= v < 26 ==> UPPER[v] as int == 'A' as int + v
    ensures forall v :: 0 <= v < 26 ==> LOWER[v] as int == 'a' as int + v
    ensures forall v :: 0 <= v < 10 ==> DIGITS[v] as int == '0' as int + v
  {
  }
}
