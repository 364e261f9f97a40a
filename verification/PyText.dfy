/** The Python string operations the connector relies on. */
module PyText {

  // The characters `str.strip()` removes: those for which `str.isspace()` holds.
  predicate IsSpace(c: char) {
    var n := c as int;
    || 0x09 <= n <= 0x0d
    || 0x1c <= n <= 0x20
    || n == 0x85 || n == 0xa0 || n == 0x1680
    || 0x2000 <= n <= 0x200a
    || n == 0x2028 || n == 0x2029 || n == 0x202f || n == 0x205f || n == 0x3000
  }

  function StripLeft(s: string): string {
    if s != [] && IsSpace(s[0]) then StripLeft(s[1..]) else s
  }

  function StripRight(s: string): string {
    if s != [] && IsSpace(s[|s| - 1]) then StripRight(s[..|s| - 1]) else s
  }

  /** `str.strip()` */
  function Strip(s: string): string {
    StripRight(StripLeft(s))
  }

  // Nothing to strip at either end.
  predicate Trimmed(s: string) {
    s == [] || (!IsSpace(s[0]) && !IsSpace(s[|s| - 1]))
  }

  /** `str.isascii()` */
  predicate IsAscii(s: string) {
    forall k :: 0 <= k < |s| ==> s[k] as int < 128
  }

  lemma {:induction false} StripLeftCuts(s: string)
    ensures |StripLeft(s)| <= |s| && StripLeft(s) == s[|s| - |StripLeft(s)|..]
    ensures forall k :: 0 <= k < |s| - |StripLeft(s)| ==> IsSpace(s[k])
    ensures StripLeft(s) == [] || !IsSpace(StripLeft(s)[0])
  {
    if s != [] && IsSpace(s[0]) {
      StripLeftCuts(s[1..]);
      var n := |StripLeft(s)|;
      assert s[1..][|s| - 1 - n..] == s[|s| - n..];
      assert forall k :: 1 <= k < |s| - n ==> s[k] == s[1..][k - 1];
    }
  }

  lemma {:induction false} StripRightCuts(s: string)
    ensures |StripRight(s)| <= |s| && StripRight(s) == s[..|StripRight(s)|]
    ensures forall k :: |StripRight(s)| <= k < |s| ==> IsSpace(s[k])
    ensures StripRight(s) == [] || !IsSpace(StripRight(s)[|StripRight(s)| - 1])
  {
    if s != [] && IsSpace(s[|s| - 1]) {
      StripRightCuts(s[..|s| - 1]);
      assert forall k :: 0 <= k < |s| - 1 ==> s[k] == s[..|s| - 1][k];
    }
  }

  /** What stripping does, without naming how: it cuts a run of whitespace off each end and
      leaves a trimmed slice. */
  lemma StripCuts(s: string) returns (front: nat, back: nat)
    ensures front <= back <= |s|
    ensures Strip(s) == s[front..back] && Trimmed(Strip(s))
    ensures forall k :: 0 <= k < front || back <= k < |s| ==> IsSpace(s[k])
  {
    StripLeftCuts(s);
    var left := StripLeft(s);
    StripRightCuts(left);
    front, back := CutBothEnds(s, left, Strip(s));
    if Strip(s) != [] {
      assert Strip(s)[0] == left[0];
    }
  }

  // Whitespace cut off the left, then off the right.
  lemma CutBothEnds(s: string, left: string, both: string) returns (front: nat, back: nat)
    requires |left| <= |s| && left == s[|s| - |left|..] && |both| <= |left| && both == left[..|both|]
    requires forall k :: 0 <= k < |s| - |left| ==> IsSpace(s[k])
    requires forall k :: |both| <= k < |left| ==> IsSpace(left[k])
    ensures front <= back <= |s| && both == s[front..back]
    ensures forall k :: 0 <= k < front || back <= k < |s| ==> IsSpace(s[k])
  {
    front := |s| - |left|;
    back := front + |both|;
    forall k | back <= k < |s| ensures IsSpace(s[k]) {
      assert s[k] == left[k - front];
    }
  }

  // A string is unchanged by stripping iff it is trimmed, iff its length survives.
  lemma StripKeeps(s: string)
    ensures |Strip(s)| <= |s|
    ensures Strip(s) == s <==> Trimmed(s)
    ensures Strip(s) == s <==> |Strip(s)| == |s|
    ensures Strip(Strip(s)) == Strip(s)
  {
    var front, back := StripCuts(s);
    if Trimmed(s) {
      TrimmedIsStripped(s);
    }
    TrimmedIsStripped(Strip(s));
    if |Strip(s)| == |s| {
      assert s[front..back] == s;
    }
  }

  lemma TrimmedIsStripped(s: string)
    requires Trimmed(s)
    ensures Strip(s) == s
  {
    StripLeftCuts(s);
    StripRightCuts(s);
  }

  // ---------------------------------------------------------------- what stripping cannot touch

  // How many characters are not whitespace.
  function Ink(s: string): nat {
    if s == "" then 0 else (if IsSpace(s[0]) then 0 else 1) + Ink(s[1..])
  }

  lemma {:induction false} InkSplits(a: string, b: string)
    ensures Ink(a + b) == Ink(a) + Ink(b)
  {
    if a == "" {
      assert a + b == b;
    } else {
      assert (a + b)[1..] == a[1..] + b;
      InkSplits(a[1..], b);
    }
  }

  lemma {:induction false} InkOfSpaces(s: string)
    requires forall k :: 0 <= k < |s| ==> IsSpace(s[k])
    ensures Ink(s) == 0
  {
    if s != "" { InkOfSpaces(s[1..]); }
  }

  // Stripping keeps them all, and leaves nothing only where there were none.
  lemma StripKeepsInk(s: string)
    ensures Ink(Strip(s)) == Ink(s)
    ensures Strip(s) != "" ==> Ink(s) > 0
  {
    var front, back := StripCuts(s);
    assert s == s[..front] + s[front..back] + s[back..];
    InkSplits(s[..front] + s[front..back], s[back..]);
    InkSplits(s[..front], s[front..back]);
    InkOfSpaces(s[..front]);
    InkOfSpaces(s[back..]);
  }

  // A first part without the separator is determined, and so is what follows it.
  lemma FirstSplitUnique(c: char, a: string, x: string, b: string, y: string)
    requires c !in a && c !in b && a + [c] + x == b + [c] + y
    ensures a == b && x == y
  {
    var s := a + [c] + x;
    assert s[|a|] == c && s[|b|] == c;
    assert forall k :: 0 <= k < |a| ==> s[k] == a[k];
    assert forall k :: 0 <= k < |b| ==> s[k] == b[k];
    assert |a| == |b|;
    assert s[..|a|] == a && s[..|b|] == b;
    assert s[|a| + 1..] == x && s[|b| + 1..] == y;
  }

  // Likewise from the end.
  lemma LastSplitUnique(c: char, x: string, a: string, y: string, b: string)
    requires c !in a && c !in b && x + [c] + a == y + [c] + b
    ensures a == b && x == y
  {
    var s := x + [c] + a;
    assert s[|x|] == c && s[|y|] == c;
    assert forall k :: |x| < k < |s| ==> s[k] == a[k - |x| - 1];
    assert forall k :: |y| < k < |s| ==> s[k] == b[k - |y| - 1];
    assert |x| == |y|;
    assert s[|x| + 1..] == a && s[|y| + 1..] == b;
    assert s[..|x|] == x && s[..|y|] == y;
  }

  /** `str.lower()` on the characters that matter here.  U+212A is the one character outside
      ASCII that `lower` maps to a letter of ASCII alone; the others are left as they are, since
      their lower-case forms hold a character outside ASCII. */
  function LowerChar(c: char): char {
    if 'A' <= c <= 'Z' then (c as int + 32) as char
    else if c == '\U{212A}' then 'k'
    else c
  }

  function Lower(s: string): string {
    seq(|s|, i requires 0 <= i < |s| => LowerChar(s[i]))
  }
}
