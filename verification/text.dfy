/** The two string normalisations the setup screen applies to typed names and
    words: JavaScript's `String.prototype.trim` and `toLowerCase`. */
module Text {

  /** The characters `trim` removes: the WhiteSpace and LineTerminator code
      points of ECMA-262 (tab, vertical tab, form feed, space, no-break space,
      the Unicode space separators, line feed, carriage return, line and
      paragraph separator, and the byte-order mark). */
  predicate IsWhitespace(c: char) {
    var n := c as int;
    || n == 0x09 || n == 0x0A || n == 0x0B || n == 0x0C || n == 0x0D
    || n == 0x20 || n == 0xA0 || n == 0x1680 || (0x2000 <= n <= 0x200A)
    || n == 0x2028 || n == 0x2029 || n == 0x202F || n == 0x205F
    || n == 0x3000 || n == 0xFEFF
  }

  /** A string with no whitespace at either end. */
  predicate Trimmed(s: string) {
    s == [] || (!IsWhitespace(s[0]) && !IsWhitespace(s[|s| - 1]))
  }

  predicate AllWhitespace(s: string) {
    forall i :: 0 <= i < |s| ==> IsWhitespace(s[i])
  }

  /** The number of whitespace characters `s` starts with. */
  function LeadingSpace(s: string): (k: nat)
    ensures k <= |s|
    ensures forall i :: 0 <= i < k ==> IsWhitespace(s[i])
    ensures k < |s| ==> !IsWhitespace(s[k])
  {
    if s != [] && IsWhitespace(s[0]) then 1 + LeadingSpace(s[1..]) else 0
  }

  /** The length of `s` without the whitespace it ends with. */
  function TrailingStart(s: string): (e: nat)
    ensures e <= |s|
    ensures forall i :: e <= i < |s| ==> IsWhitespace(s[i])
    ensures 0 < e ==> !IsWhitespace(s[e - 1])
  {
    if s != [] && IsWhitespace(s[|s| - 1]) then TrailingStart(s[..|s| - 1]) else |s|
  }

  /** `s.trim()`: the slice of `s` between its leading and its trailing
      whitespace. Everything removed is whitespace, and the result has no
      whitespace at either end. */
  function Trim(s: string): (r: string)
    ensures Trimmed(r) && |r| <= |s|
    ensures var k := LeadingSpace(s);
      && k + |r| <= |s| && r == s[k..k + |r|]
      && (forall i :: 0 <= i < k ==> IsWhitespace(s[i]))
      && (forall i :: k + |r| <= i < |s| ==> IsWhitespace(s[i]))
  {
    var k := LeadingSpace(s);
    if k == |s| then []
    else
      var e := TrailingStart(s);
      assert k < e;
      s[k..e]
  }

  /** Trimming an already trimmed string changes nothing, so a stored name or
      word is its own trimmed form. */
  lemma TrimIsIdempotent(s: string)
    ensures Trim(Trim(s)) == Trim(s)
  {
    var t := Trim(s);
    if t != [] {
      assert LeadingSpace(t) == 0;
      assert TrailingStart(t) == |t|;
    }
  }

  /** `!s.trim()` holds exactly when `s` consists of whitespace only. */
  lemma BlankIffAllWhitespace(s: string)
    ensures Trim(s) == [] <==> AllWhitespace(s)
  {
    if Trim(s) == [] {
      var k := LeadingSpace(s);
      assert forall i :: 0 <= i < |s| ==> (i < k || k <= i) && IsWhitespace(s[i]);
    }
  }

  predicate IsUpper(c: char) {
    var n := c as int;
    (0x41 <= n <= 0x5A) || (0xC0 <= n <= 0xDE && n != 0xD7)
  }

  /** `toLowerCase` on one character, for the Basic Latin and Latin-1
      letters: upper-case letters move 0x20 code points up the table,
      everything else is kept. */
  function LowerChar(c: char): (d: char)
    ensures !IsUpper(d)
    ensures IsUpper(c) ==> d as int == c as int + 0x20
    ensures !IsUpper(c) ==> d == c
  {
    if IsUpper(c) then (c as int + 0x20) as char else c
  }

  /** `toLowerCase` on a string, character by character. */
  function Lower(s: string): (r: string)
    ensures |r| == |s|
    ensures forall i :: 0 <= i < |s| ==> r[i] == LowerChar(s[i])
  {
    seq(|s|, i requires 0 <= i < |s| => LowerChar(s[i]))
  }

  /** The comparison `a.toLowerCase() === b.toLowerCase()`. */
  predicate SameIgnoringCase(a: string, b: string) {
    Lower(a) == Lower(b)
  }

  /** Lower-casing twice is lower-casing once. */
  lemma LowerIsIdempotent(s: string)
    ensures Lower(Lower(s)) == Lower(s)
  {
    assert forall i :: 0 <= i < |s| ==> Lower(Lower(s))[i] == Lower(s)[i];
  }

  /** A one-letter upper-case name is its own trimmed form. */
  lemma SingleLetterTrims(c: char)
    requires 'A' <= c <= 'Z'
    ensures Trim([c]) == [c]
  {
    assert !IsWhitespace(c);
    assert LeadingSpace([c]) == 0;
  }
}
