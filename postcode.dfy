/**
 * The Code-Point Open postcode converter `fix_postcode`: the regular expression
 * `([A-Z][A-Z]?\d\d?[A-Z]?)\s*(\d[A-Z][A-Z])`, matched at the start of the
 * string only, and its two groups joined by a single space.
 *
 * The matcher below tries the three optional items the way a backtracking
 * regular-expression engine does: "take" before "skip", the second letter as
 * the outermost choice, then the second digit, then the trailing letter. The
 * `\s*` needs no backtracking of its own: the inward code starts with a digit,
 * and no digit is whitespace, so only its longest run can be followed by a
 * match.
 */
module Postcode {
  import opened Wrappers

  /** `[A-Z]`: the pattern is case-sensitive. */
  predicate IsUpper(c: char) {
    'A' <= c <= 'Z'
  }

  /** `\d`, restricted to the ASCII digits. */
  predicate IsDigit(c: char) {
    '0' <= c <= '9'
  }

  /** `\s` on a str pattern: the code points Python's `str.isspace` accepts. */
  predicate IsSpace(c: char) {
    var n := c as int;
    (0x09 <= n <= 0x0D) || (0x1C <= n <= 0x20) || n == 0x85 || n == 0xA0 || n == 0x1680
    || (0x2000 <= n <= 0x200A) || n == 0x2028 || n == 0x2029 || n == 0x202F || n == 0x205F
    || n == 0x3000
  }

  /** `s[i..j]` are all letters. */
  predicate LettersAt(s: string, i: nat, j: nat)
    requires i <= j <= |s|
  {
    forall k | i <= k < j :: IsUpper(s[k])
  }

  /** `s[i..j]` are all digits. */
  predicate DigitsAt(s: string, i: nat, j: nat)
    requires i <= j <= |s|
  {
    forall k | i <= k < j :: IsDigit(s[k])
  }

  /** `s[i..j]` is all whitespace. */
  predicate SpacesAt(s: string, i: nat, j: nat)
    requires i <= j <= |s|
  {
    forall k | i <= k < j :: IsSpace(s[k])
  }

  /** `s` starts with `nl` letters, then `nd` digits, then `nt` letters. */
  predicate ShapeAt(s: string, nl: nat, nd: nat, nt: nat) {
    && nl + nd + nt <= |s|
    && LettersAt(s, 0, nl)
    && DigitsAt(s, nl, nl + nd)
    && LettersAt(s, nl + nd, nl + nd + nt)
  }

  /** The outward code, group 1: `[A-Z][A-Z]?\d\d?[A-Z]?`. */
  ghost predicate IsOutward(o: string) {
    exists nl: nat, nd: nat, nt: nat | 1 <= nl <= 2 && 1 <= nd <= 2 && nt <= 1 ::
      |o| == nl + nd + nt && ShapeAt(o, nl, nd, nt)
  }

  /** The inward code, group 2: `\d[A-Z][A-Z]`. */
  predicate IsInward(w: string) {
    |w| == 3 && IsDigit(w[0]) && IsUpper(w[1]) && IsUpper(w[2])
  }

  /**
   * One way for the whole pattern to match at position 0 of `s`: group 1 is
   * `s[..e]`, the `\s*` spans `s[e..j]` and group 2 is `s[j..j + 3]`. What
   * follows group 2 is not looked at.
   */
  ghost predicate IsSplit(s: string, e: nat, j: nat) {
    && e <= j
    && j + 3 <= |s|
    && IsOutward(s[..e])
    && SpacesAt(s, e, j)
    && IsInward(s[j..j + 3])
  }

  /** The canonical form: outward code, exactly one space, inward code. */
  ghost predicate IsNormalised(r: string) {
    && |r| >= 4
    && IsOutward(r[..|r| - 4])
    && r[|r| - 4] == ' '
    && IsInward(r[|r| - 3..])
  }

  /**
   * A match as the engine records it: how many letters, digits and trailing
   * letters group 1 took, and where group 2 starts.
   */
  datatype Split = Split(nl: nat, nd: nat, nt: nat, inStart: nat) {
    /** The end of group 1. */
    function OutEnd(): nat {
      nl + nd + nt
    }
  }

  /** `\s*` from position `i`: the end of the longest run of whitespace. */
  function SkipSpace(s: string, i: nat): (j: nat)
    requires i <= |s|
    ensures i <= j <= |s|
    ensures SpacesAt(s, i, j)
    ensures j < |s| ==> !IsSpace(s[j])
    decreases |s| - i
  {
    if i < |s| && IsSpace(s[i]) then SkipSpace(s, i + 1) else i
  }

  /** The inward code `\d[A-Z][A-Z]` at position `j`. */
  predicate InwardAt(s: string, j: nat) {
    j + 3 <= |s| && IsDigit(s[j]) && IsUpper(s[j + 1]) && IsUpper(s[j + 2])
  }

  /** After group 1 of `m`, whitespace and then group 2 of `m`. */
  predicate TailAt(s: string, m: Split) {
    m.OutEnd() <= m.inStart && InwardAt(s, m.inStart) && SpacesAt(s, m.OutEnd(), m.inStart)
  }

  /** `\s*(\d[A-Z][A-Z])` once group 1 has taken `nl`, `nd` and `nt` characters. */
  function Attempt(s: string, nl: nat, nd: nat, nt: nat): (r: Option<Split>)
    requires nl + nd + nt <= |s|
    ensures r.Some? ==> r.value.nl == nl && r.value.nd == nd && r.value.nt == nt && TailAt(s, r.value)
  {
    var j := SkipSpace(s, nl + nd + nt);
    if InwardAt(s, j) then Some(Split(nl, nd, nt, j)) else None
  }

  /** The first alternative that matched, else the second. */
  function OrElse(taken: Option<Split>, skipped: Option<Split>): Option<Split> {
    if taken.Some? then taken else skipped
  }

  /** `[A-Z]?` after `nl` letters and `nd` digits, then the rest of the pattern. */
  function OptLetter(s: string, nl: nat, nd: nat): (r: Option<Split>)
    requires nl + nd <= |s|
    ensures r.Some? ==> r.value.nl == nl && r.value.nd == nd && r.value.nt <= 1 && TailAt(s, r.value)
    ensures r.Some? ==> LettersAt(s, nl + nd, r.value.OutEnd())
  {
    OrElse(if nl + nd < |s| && IsUpper(s[nl + nd]) then Attempt(s, nl, nd, 1) else None,
           Attempt(s, nl, nd, 0))
  }

  /** `\d?[A-Z]?` after `nl` letters and one digit, then the rest of the pattern. */
  function OptDigit(s: string, nl: nat): (r: Option<Split>)
    requires nl + 1 <= |s|
    ensures r.Some? ==> r.value.nl == nl && 1 <= r.value.nd <= 2 && r.value.nt <= 1 && TailAt(s, r.value)
    ensures r.Some? ==> DigitsAt(s, nl + 1, nl + r.value.nd) && LettersAt(s, nl + r.value.nd, r.value.OutEnd())
  {
    OrElse(if nl + 1 < |s| && IsDigit(s[nl + 1]) then OptLetter(s, nl, 2) else None,
           OptLetter(s, nl, 1))
  }

  /** `\d\d?[A-Z]?` after `nl` letters, then the rest of the pattern. */
  function Digit(s: string, nl: nat): (r: Option<Split>)
    requires nl <= |s|
    ensures r.Some? ==> r.value.nl == nl && 1 <= r.value.nd <= 2 && r.value.nt <= 1 && TailAt(s, r.value)
    ensures r.Some? ==> DigitsAt(s, nl, nl + r.value.nd) && LettersAt(s, nl + r.value.nd, r.value.OutEnd())
  {
    if nl < |s| && IsDigit(s[nl]) then OptDigit(s, nl) else None
  }

  /** `re.match` of the whole pattern: anchored at position 0. */
  function Match(s: string): (r: Option<Split>)
    ensures r.Some? ==> 1 <= r.value.nl <= 2 && 1 <= r.value.nd <= 2 && r.value.nt <= 1 && TailAt(s, r.value)
    ensures r.Some? ==> ShapeAt(s, r.value.nl, r.value.nd, r.value.nt)
  {
    if |s| == 0 || !IsUpper(s[0]) then None
    else OrElse(if 1 < |s| && IsUpper(s[1]) then Digit(s, 2) else None, Digit(s, 1))
  }

  /**
   * `fix_postcode`: the two groups joined by one space. When the pattern does
   * not match, the source calls `.group` on `None` and raises; that is `None`
   * here.
   */
  function FixPostcode(s: string): (r: Option<string>)
    ensures r.Some? ==> IsNormalised(r.value)
  {
    MatchSound(s);
    match Match(s)
    case None => None
    case Some(m) =>
      var out, inw := s[..m.OutEnd()], s[m.inStart..m.inStart + 3];
      assert (out + " " + inw)[..|out|] == out;
      assert (out + " " + inw)[|out| + 1..] == inw;
      Some(out + " " + inw)
  }

  // ---------------------------------------------------------------------------
  // What the matcher finds

  /** A shape at the start of `s` is an outward code. */
  lemma ShapeIsOutward(s: string, nl: nat, nd: nat, nt: nat)
    requires 1 <= nl <= 2 && 1 <= nd <= 2 && nt <= 1
    requires ShapeAt(s, nl, nd, nt)
    ensures IsOutward(s[..nl + nd + nt])
  {
    assert ShapeAt(s[..nl + nd + nt], nl, nd, nt);
  }

  /** An outward code at the start of `s` has a shape. */
  lemma OutwardHasShape(s: string, e: nat) returns (nl: nat, nd: nat, nt: nat)
    requires e <= |s| && IsOutward(s[..e])
    ensures 1 <= nl <= 2 && 1 <= nd <= 2 && nt <= 1 && e == nl + nd + nt
    ensures ShapeAt(s, nl, nd, nt)
  {
    var o := s[..e];
    nl, nd, nt :| 1 <= nl <= 2 && 1 <= nd <= 2 && nt <= 1 && |o| == nl + nd + nt && ShapeAt(o, nl, nd, nt);
    assert forall k | 0 <= k < e :: o[k] == s[k];
  }

  /** Every match the engine reports is a genuine match of the pattern. */
  lemma MatchSound(s: string)
    ensures Match(s).Some? ==> IsSplit(s, Match(s).value.OutEnd(), Match(s).value.inStart)
  {
    if Match(s).Some? {
      var m := Match(s).value;
      ShapeIsOutward(s, m.nl, m.nd, m.nt);
      var j := m.inStart;
      assert s[j..j + 3] == [s[j], s[j + 1], s[j + 2]];
    }
  }

  /** The whitespace run and inward code after a genuine split are found from its end. */
  lemma AttemptComplete(s: string, nl: nat, nd: nat, nt: nat, j: nat)
    requires nl + nd + nt <= j && j + 3 <= |s|
    requires SpacesAt(s, nl + nd + nt, j) && IsInward(s[j..j + 3])
    ensures Attempt(s, nl, nd, nt) == Some(Split(nl, nd, nt, j))
  {
    assert s[j..j + 3][0] == s[j];
    assert SkipSpace(s, nl + nd + nt) == j;
  }

  lemma OptLetterComplete(s: string, nl: nat, nd: nat, nt: nat)
    requires nt <= 1 && nl + nd + nt <= |s|
    requires LettersAt(s, nl + nd, nl + nd + nt)
    requires Attempt(s, nl, nd, nt).Some?
    ensures OptLetter(s, nl, nd).Some? && OptLetter(s, nl, nd).value.nt >= nt
  {
  }

  lemma OptDigitComplete(s: string, nl: nat, nd: nat, nt: nat)
    requires 1 <= nd <= 2 && nt <= 1 && nl + nd + nt <= |s|
    requires DigitsAt(s, nl + 1, nl + nd) && LettersAt(s, nl + nd, nl + nd + nt)
    requires Attempt(s, nl, nd, nt).Some?
    ensures OptDigit(s, nl).Some? && OptDigit(s, nl).value.OutEnd() >= nl + nd + nt
  {
    if nd == 2 {
      OptLetterComplete(s, nl, 2, nt);
    } else if !(nl + 1 < |s| && IsDigit(s[nl + 1]) && OptLetter(s, nl, 2).Some?) {
      OptLetterComplete(s, nl, 1, nt);
    }
  }

  /**
   * Every genuine match is found, and the engine's backtracking order picks
   * the longest outward code among all matches.
   */
  lemma MatchComplete(s: string, e: nat, j: nat)
    requires IsSplit(s, e, j)
    ensures Match(s).Some? && Match(s).value.OutEnd() >= e
  {
    var nl, nd, nt := OutwardHasShape(s, e);
    AttemptComplete(s, nl, nd, nt, j);
    OptDigitComplete(s, nl, nd, nt);
    assert Digit(s, nl) == OptDigit(s, nl);
    if nl == 1 {
      assert !IsUpper(s[1]);
    }
  }

  // ---------------------------------------------------------------------------
  // Properties of fix_postcode

  /** The pattern matches at position 0 exactly when `fix_postcode` succeeds. */
  lemma FixPostcodeSucceedsIffMatch(s: string)
    ensures FixPostcode(s).Some? <==> exists e: nat, j: nat :: IsSplit(s, e, j)
  {
    if FixPostcode(s).Some? {
      MatchSound(s);
      var m := Match(s).value;
      assert IsSplit(s, m.OutEnd(), m.inStart);
    } else if e: nat, j: nat :| IsSplit(s, e, j) {
      MatchComplete(s, e, j);
    }
  }

  /**
   * On success the result is group 1 of a genuine match, one space and its
   * group 2, and no other match has a longer outward code: the backtracking
   * order is the same as "longest outward code first".
   */
  lemma FixPostcodeLongestOutward(s: string, e: nat, j: nat)
    requires IsSplit(s, e, j)
    ensures FixPostcode(s).Some?
    ensures exists e': nat, j': nat ::
      && IsSplit(s, e', j')
      && e <= e'
      && FixPostcode(s).value == s[..e'] + " " + s[j'..j' + 3]
  {
    MatchComplete(s, e, j);
    MatchSound(s);
    var m := Match(s).value;
    assert IsSplit(s, m.OutEnd(), m.inStart);
  }

  /** A postcode already in canonical form is left unchanged. */
  lemma NormalisedIsFixed(r: string)
    requires IsNormalised(r)
    ensures FixPostcode(r) == Some(r)
  {
    var n := |r|;
    assert r[n - 3..] == r[n - 3..n - 3 + 3];
    assert IsSplit(r, n - 4, n - 3);
    MatchComplete(r, n - 4, n - 3);
    var m := Match(r).value;
    assert m.OutEnd() == n - 4;
    assert m.inStart == n - 3;
    assert r == r[..n - 4] + " " + r[n - 3..n];
  }

  /** `fix_postcode` is idempotent. */
  lemma FixPostcodeIdempotent(s: string)
    requires FixPostcode(s).Some?
    ensures FixPostcode(FixPostcode(s).value) == FixPostcode(s)
  {
    NormalisedIsFixed(FixPostcode(s).value);
  }

  /** A normalised postcode has a space where "null" has a letter, so it is never "null". */
  lemma NormalisedIsNotNull(r: string)
    requires IsNormalised(r)
    ensures r != "null"
  {
  }

  // ---------------------------------------------------------------------------
  // Examples

  /** A registry postcode without its space: the space is inserted. */
  lemma ExampleInsertsSpace()
    ensures FixPostcode("AB101AB") == Some("AB10 1AB")
  {
    var s := "AB101AB";
    assert Attempt(s, 2, 2, 0) == Some(Split(2, 2, 0, 4));
    assert Match(s) == Some(Split(2, 2, 0, 4));
    assert FixPostcode(s) == Some(s[..4] + " " + s[4..7]);
    assert s[..4] + " " + s[4..7] == "AB10 1AB";
  }

  /** Without a leading letter the pattern cannot match at position 0. */
  lemma ExampleNoLetters()
    ensures FixPostcode("12345") == None
  {
  }

  /** Backtracking gives up the second digit so that the inward code can match. */
  lemma ExampleBacktracks()
    ensures FixPostcode("A11AB") == Some("A1 1AB")
  {
    var s := "A11AB";
    MatchGivesBackDigit();
    assert FixPostcode(s) == Some(s[..2] + " " + s[2..5]);
    assert s[..2] + " " + s[2..5] == "A1 1AB";
  }

  /** The engine's steps on "A11AB": both ways of taking two digits fail, one digit succeeds. */
  lemma MatchGivesBackDigit()
    ensures Match("A11AB") == Some(Split(1, 1, 0, 2))
  {
    var s := "A11AB";
    assert Attempt(s, 1, 2, 1) == None;
    assert Attempt(s, 1, 2, 0) == None;
    assert Attempt(s, 1, 1, 0) == Some(Split(1, 1, 0, 2));
    assert OptDigit(s, 1) == Some(Split(1, 1, 0, 2));
  }

  /** A trailing letter is kept; whitespace is collapsed and trailing text dropped. */
  lemma ExampleTrailingText()
    ensures FixPostcode("SW1A  1AAXYZ") == Some("SW1A 1AA")
  {
    var s := "SW1A  1AAXYZ";
    assert SkipSpace(s, 4) == 6;
    assert Attempt(s, 2, 1, 1) == Some(Split(2, 1, 1, 6));
    assert Match(s) == Some(Split(2, 1, 1, 6));
    assert FixPostcode(s) == Some(s[..4] + " " + s[6..9]);
    assert s[..4] + " " + s[6..9] == "SW1A 1AA";
  }
}
