/** The string that is signed: connector/security.py builds it from stripped fields,
    scripts/signature_helper.py from the fields as they are. */
module Canonical {
  import opened Common
  import opened PyText
  import Base64Url

  /** Library functions that stay uninterpreted.  `upper` is `str.upper()`, `parseInt` is `int()`
      on a string (None where it raises). */
  datatype Primitives = Primitives(
    utf8: string -> Bytes,
    sha256Hex: Bytes -> string,
    hmacSha256: (Bytes, Bytes) -> Bytes,
    upper: string -> string,
    parseInt: string -> Option<int>)

  datatype Fields = Fields(
    verb: string, path: string, bodyHash: string,
    tenantId: string, requestId: string, timestamp: string, nonce: string)

  function Line(first: string, rest: string): string {
    first + "\n" + rest
  }

  /** `"\n".join(parts)` */
  function JoinLines(parts: seq<string>): string {
    if |parts| == 0 then "" else if |parts| == 1 then parts[0] else Line(parts[0], JoinLines(parts[1..]))
  }

  function Parts(p: Primitives, f: Fields): seq<string> {
    [p.upper(f.verb), f.path, f.bodyHash, f.tenantId, f.requestId, f.timestamp, f.nonce]
  }

  function StrippedParts(p: Primitives, f: Fields): seq<string> {
    [Strip(p.upper(f.verb)), Strip(f.path), Strip(f.bodyHash), Strip(f.tenantId),
     Strip(f.requestId), Strip(f.timestamp), Strip(f.nonce)]
  }

  /** `build_canonical_string` of the connector; the SGraph client builds the same string. */
  function BuildCanonical(p: Primitives, f: Fields): string {
    JoinLines(StrippedParts(p, f))
  }

  /** `build_canonical` of the signature helper, which strips nothing. */
  function BuildUnstripped(p: Primitives, f: Fields): string {
    JoinLines(Parts(p, f))
  }

  /** `sign_canonical` */
  function Sign(p: Primitives, canonical: string, secret: string): string {
    Base64Url.Encode(p.hmacSha256(p.utf8(secret), p.utf8(canonical)))
  }

  // The secret does not give these two strings one digest.
  ghost predicate NoCollision(p: Primitives, secret: string, a: string, b: string) {
    p.hmacSha256(p.utf8(secret), p.utf8(a)) == p.hmacSha256(p.utf8(secret), p.utf8(b)) ==> a == b
  }

  // Nor does hashing, of bytes and of text.
  ghost predicate NoHashCollision(p: Primitives, a: Bytes, b: Bytes) {
    p.sha256Hex(a) == p.sha256Hex(b) ==> a == b
  }

  ghost predicate NoTextCollision(p: Primitives, a: string, b: string) {
    p.sha256Hex(p.utf8(a)) == p.sha256Hex(p.utf8(b)) ==> a == b
  }

  lemma SignaturesAgreeIff(p: Primitives, a: string, b: string, secret: string)
    requires NoCollision(p, secret, a, b)
    ensures Sign(p, a, secret) == Sign(p, b, secret) <==> a == b
  {
    if Sign(p, a, secret) == Sign(p, b, secret) {
      Base64Url.EncodeInjective(p.hmacSha256(p.utf8(secret), p.utf8(a)), p.hmacSha256(p.utf8(secret), p.utf8(b)));
    }
  }

  // ---------------------------------------------------------------- taking lines apart

  lemma JoinSeven(s: seq<string>)
    requires |s| == 7
    ensures JoinLines(s) == Line(s[0], Line(s[1], Line(s[2], Line(s[3], Line(s[4], Line(s[5], s[6]))))))
  {
    assert s[5..][1..] == s[6..];
    assert s[4..][1..] == s[5..];
    assert s[3..][1..] == s[4..];
    assert s[2..][1..] == s[3..];
    assert s[1..][1..] == s[2..];
    assert JoinLines(s[5..]) == Line(s[5], s[6]);
    assert JoinLines(s[4..]) == Line(s[4], JoinLines(s[5..]));
    assert JoinLines(s[3..]) == Line(s[3], JoinLines(s[4..]));
    assert JoinLines(s[2..]) == Line(s[2], JoinLines(s[3..]));
    assert JoinLines(s[1..]) == Line(s[1], JoinLines(s[2..]));
  }

  lemma LineAssociates(a: string, b: string, c: string)
    ensures Line(a, Line(b, c)) == Line(Line(a, b), c)
  {
  }

  // The fields whose stripped text must be a single line.
  ghost predicate SingleLines(p: Primitives, f: Fields) {
    && '\n' !in Strip(p.upper(f.verb)) && '\n' !in Strip(f.path) && '\n' !in Strip(f.bodyHash)
    && '\n' !in Strip(f.timestamp) && '\n' !in Strip(f.nonce)
  }

  // Tenant and request id together, as they stand in the signed string.
  ghost function TenantBlock(f: Fields): string {
    Line(Strip(f.tenantId), Strip(f.requestId))
  }

  lemma CanonicalLayout(p: Primitives, f: Fields)
    ensures BuildCanonical(p, f) ==
            Line(Strip(p.upper(f.verb)), Line(Strip(f.path), Line(Strip(f.bodyHash),
                 Line(Line(TenantBlock(f), Strip(f.timestamp)), Strip(f.nonce)))))
  {
    var s := StrippedParts(p, f);
    JoinSeven(s);
    LineAssociates(s[3], s[4], Line(s[5], s[6]));
    LineAssociates(TenantBlock(f), s[5], s[6]);
  }

  /** Unique decodability, both ways: with newlines nowhere but in the tenant or the request id,
      two signed strings agree iff the other five stripped fields and the tenant block agree. */
  lemma CanonicalEqualIff(p: Primitives, f: Fields, g: Fields)
    requires SingleLines(p, f) && SingleLines(p, g)
    ensures BuildCanonical(p, f) == BuildCanonical(p, g) <==>
              && Strip(p.upper(f.verb)) == Strip(p.upper(g.verb))
              && Strip(f.path) == Strip(g.path)
              && Strip(f.bodyHash) == Strip(g.bodyHash)
              && TenantBlock(f) == TenantBlock(g)
              && Strip(f.timestamp) == Strip(g.timestamp)
              && Strip(f.nonce) == Strip(g.nonce)
  {
    CanonicalLayout(p, f);
    CanonicalLayout(p, g);
    if BuildCanonical(p, f) == BuildCanonical(p, g) {
      var restF := Line(Line(TenantBlock(f), Strip(f.timestamp)), Strip(f.nonce));
      var restG := Line(Line(TenantBlock(g), Strip(g.timestamp)), Strip(g.nonce));
      FirstSplitUnique('\n', Strip(p.upper(f.verb)), Line(Strip(f.path), Line(Strip(f.bodyHash), restF)),
                      Strip(p.upper(g.verb)), Line(Strip(g.path), Line(Strip(g.bodyHash), restG)));
      FirstSplitUnique('\n', Strip(f.path), Line(Strip(f.bodyHash), restF),
                      Strip(g.path), Line(Strip(g.bodyHash), restG));
      FirstSplitUnique('\n', Strip(f.bodyHash), restF, Strip(g.bodyHash), restG);
      LastSplitUnique('\n', Line(TenantBlock(f), Strip(f.timestamp)), Strip(f.nonce),
                      Line(TenantBlock(g), Strip(g.timestamp)), Strip(g.nonce));
      LastSplitUnique('\n', TenantBlock(f), Strip(f.timestamp), TenantBlock(g), Strip(g.timestamp));
    }
  }

  /** When the tenants are single lines too, the signed string determines all seven fields. */
  lemma CanonicalDeterminesAllFields(p: Primitives, f: Fields, g: Fields)
    requires SingleLines(p, f) && SingleLines(p, g)
    requires '\n' !in Strip(f.tenantId) && '\n' !in Strip(g.tenantId)
    requires BuildCanonical(p, f) == BuildCanonical(p, g)
    ensures StrippedParts(p, f) == StrippedParts(p, g)
  {
    CanonicalEqualIff(p, f, g);
    FirstSplitUnique('\n', Strip(f.tenantId), Strip(f.requestId), Strip(g.tenantId), Strip(g.requestId));
  }

  /** Exactly when two different tenants share a tenant block: the longer one is the shorter one
      followed by a newline and a text that the other side carries in its request id. */
  lemma TenantBlockSharedIff(f: Fields, g: Fields)
    requires |Strip(f.tenantId)| < |Strip(g.tenantId)|
    ensures TenantBlock(f) == TenantBlock(g) <==>
              exists x :: Strip(g.tenantId) == Line(Strip(f.tenantId), x)
                       && Strip(f.requestId) == Line(x, Strip(g.requestId))
  {
    var t, r, u, q := Strip(f.tenantId), Strip(f.requestId), Strip(g.tenantId), Strip(g.requestId);
    if Line(t, r) == Line(u, q) {
      var s := Line(t, r);
      assert s[..|u|] == u && s[|t|] == '\n' && s[..|t|] == t;
      var x := u[|t| + 1..];
      assert u == Line(t, x);
      assert s[|t| + 1..] == r;
      assert r == Line(x, q);
    }
    if x :| u == Line(t, x) && r == Line(x, q) {
      LineAssociates(t, x, q);
    }
  }

  /** So two tenants can share a signed string: the newline between tenant and request id may as
      well belong to either. */
  lemma TenantsShareSignedString(p: Primitives, f: Fields)
    ensures var one, other := f.(tenantId := "a", requestId := "b\nc"), f.(tenantId := "a\nb", requestId := "c");
            BuildCanonical(p, one) == BuildCanonical(p, other) && Strip(one.tenantId) != Strip(other.tenantId)
  {
    var one, other := f.(tenantId := "a", requestId := "b\nc"), f.(tenantId := "a\nb", requestId := "c");
    StripKeeps("a");
    StripKeeps("b\nc");
    StripKeeps("a\nb");
    StripKeeps("c");
    assert "a\nb\nc" == Line("a", "b\nc") == Line("a\nb", "c");
    CanonicalLayout(p, one);
    CanonicalLayout(p, other);
  }

  // ---------------------------------------------------------------- the two signers

  // The whitespace-free content of a signed string is that of its fields, stripped or not.
  lemma InkOfLines(s: seq<string>)
    requires |s| == 7
    ensures Ink(JoinLines(s)) == Ink(s[0]) + Ink(s[1]) + Ink(s[2]) + Ink(s[3]) + Ink(s[4]) + Ink(s[5]) + Ink(s[6])
  {
    JoinSeven(s);
    InkOfLine(s[5], s[6]);
    InkOfLine(s[4], Line(s[5], s[6]));
    InkOfLine(s[3], Line(s[4], Line(s[5], s[6])));
    InkOfLine(s[2], Line(s[3], Line(s[4], Line(s[5], s[6]))));
    InkOfLine(s[1], Line(s[2], Line(s[3], Line(s[4], Line(s[5], s[6])))));
    InkOfLine(s[0], Line(s[1], Line(s[2], Line(s[3], Line(s[4], Line(s[5], s[6]))))));
  }

  lemma InkOfLine(first: string, rest: string)
    ensures Ink(Line(first, rest)) == Ink(first) + Ink(rest)
  {
    InkSplits(first + "\n", rest);
    InkSplits(first, "\n");
    InkOfSpaces("\n");
  }

  /** Signing another request id is noticed whatever whitespace the fields hold: when one id is
      empty and the other is not blank, neither signer's string for the one is the server's for
      the other. */
  lemma EmptyIdIsNoticed(p: Primitives, f: Fields, id: string)
    requires f.requestId == "" && Strip(id) != ""
    ensures BuildCanonical(p, f.(requestId := id)) != BuildCanonical(p, f)
    ensures BuildCanonical(p, f.(requestId := id)) != BuildUnstripped(p, f)
  {
    var g := f.(requestId := id);
    InkOfLines(StrippedParts(p, g));
    InkOfLines(StrippedParts(p, f));
    InkOfLines(Parts(p, f));
    StripKeepsInk(p.upper(f.verb));
    StripKeepsInk(f.path);
    StripKeepsInk(f.bodyHash);
    StripKeepsInk(f.tenantId);
    StripKeepsInk(id);
    StripKeepsInk("");
    StripKeepsInk(f.timestamp);
    StripKeepsInk(f.nonce);
    assert Ink("") == 0;
  }

  lemma JoinLength(s: seq<string>)
    requires |s| == 7
    ensures |JoinLines(s)| == |s[0]| + |s[1]| + |s[2]| + |s[3]| + |s[4]| + |s[5]| + |s[6]| + 6
  {
    JoinSeven(s);
  }

  /** The signer that strips nothing signs the string the server verifies iff no field has
      whitespace at an end. */
  lemma UnstrippedAgreesIff(p: Primitives, f: Fields)
    ensures BuildUnstripped(p, f) == BuildCanonical(p, f) <==>
              && Trimmed(p.upper(f.verb)) && Trimmed(f.path) && Trimmed(f.bodyHash) && Trimmed(f.tenantId)
              && Trimmed(f.requestId) && Trimmed(f.timestamp) && Trimmed(f.nonce)
  {
    JoinLength(Parts(p, f));
    JoinLength(StrippedParts(p, f));
    StripKeeps(p.upper(f.verb));
    StripKeeps(f.path);
    StripKeeps(f.bodyHash);
    StripKeeps(f.tenantId);
    StripKeeps(f.requestId);
    StripKeeps(f.timestamp);
    StripKeeps(f.nonce);
  }

  /** A signature over a 32-byte digest survives being sent as a header: nothing to strip. */
  lemma SignatureIsTrimmed(p: Primitives, canonical: string, secret: string)
    requires |p.hmacSha256(p.utf8(secret), p.utf8(canonical))| == 32
    ensures |Sign(p, canonical, secret)| == 43 && Strip(Sign(p, canonical, secret)) == Sign(p, canonical, secret)
  {
    var digest := p.hmacSha256(p.utf8(secret), p.utf8(canonical));
    var s := Sign(p, canonical, secret);
    Base64Url.EncodeShape(digest);
    assert Base64Url.Value(s[0]).Some? && Base64Url.Value(s[42]).Some?;
    StripKeeps(s);
  }

  // Any signature the server computes can be compared.
  lemma SignatureIsAscii(p: Primitives, canonical: string, secret: string)
    ensures IsAscii(Sign(p, canonical, secret))
  {
    var s := Sign(p, canonical, secret);
    Base64Url.EncodeShape(p.hmacSha256(p.utf8(secret), p.utf8(canonical)));
    forall k | 0 <= k < |s| ensures s[k] as int < 128 {
      assert Base64Url.Value(s[k]).Some?;
    }
  }
}
