/** The string operations of the build scripts: `startsWith`/`endsWith`, `indexOf`,
    `replace` with a string pattern, `replace` with a global regular expression, and
    `parseInt`. Strings are sequences of characters (one character per UTF-16 unit). */
module JsStrings {
  import opened Wrappers
  import opened JsValues

  predicate StartsWith(s: string, p: string) {
    |p| <= |s| && s[..|p|] == p
  }

  predicate EndsWith(s: string, p: string) {
    |p| <= |s| && s[|s| - |p|..] == p
  }

  /** `p` occurs in `s` starting at index `j`. */
  predicate OccursAt(s: string, p: string, j: nat) {
    j + |p| <= |s| && s[j..j + |p|] == p
  }

  predicate Contains(s: string, p: string) {
    exists j: nat | j <= |s| :: OccursAt(s, p, j)
  }

  predicate IsDecimalDigit(c: char) {
    '0' <= c <= '9'
  }

  predicate AllDecimalDigits(s: string) {
    forall i | 0 <= i < |s| :: IsDecimalDigit(s[i])
  }

  /** `s.indexOf(p, from)`: the first index at or after `from` where `p` occurs. */
  function IndexOf(s: string, p: string, from: nat): (r: Option<nat>)
    ensures r.Some? ==> from <= r.value && OccursAt(s, p, r.value)
    ensures r.Some? ==> forall j: nat | from <= j < r.value :: !OccursAt(s, p, j)
    ensures r.None? ==> forall j: nat | from <= j :: !OccursAt(s, p, j)
    decreases |s| - from
  {
    if from + |p| > |s| then None
    else if OccursAt(s, p, from) then Some(from)
    else IndexOf(s, p, from + 1)
  }

  /** `s.replace(p, "")` with a string pattern: only the first occurrence is removed. */
  function RemoveFirst(s: string, p: string): (r: string)
    ensures !Contains(s, p) ==> r == s
    ensures StartsWith(s, p) ==> r == s[|p|..]
  {
    match IndexOf(s, p, 0)
    case None => s
    case Some(k) => s[..k] + s[k + |p|..]
  }

  // ---------------------------------------------------------------------------
  // parseInt(s) with no radix argument

  /** The characters `parseInt` skips before the number: white space and line terminators. */
  predicate IsStrWhiteSpace(c: char) {
    c == '\t' || c == '\n' || c == '\U{B}' || c == '\U{C}' || c == '\r' || c == ' '
    || c == '\U{A0}' || c == '\U{1680}' || ('\U{2000}' <= c <= '\U{200A}')
    || c == '\U{2028}' || c == '\U{2029}' || c == '\U{202F}' || c == '\U{205F}'
    || c == '\U{3000}' || c == '\U{FEFF}'
  }

  function TrimStart(s: string): (r: string)
    ensures |r| <= |s| && r == s[|s| - |r|..]
    ensures forall i | 0 <= i < |s| - |r| :: IsStrWhiteSpace(s[i])
    ensures |r| > 0 ==> !IsStrWhiteSpace(r[0])
    decreases |s|
  {
    if |s| > 0 && IsStrWhiteSpace(s[0]) then TrimStart(s[1..]) else s
  }

  /** The value of a digit in radices up to 36 (36 for anything that is not a digit). */
  function DigitValue(c: char): nat {
    if '0' <= c <= '9' then c as nat - '0' as nat
    else if 'a' <= c <= 'z' then c as nat - 'a' as nat + 10
    else if 'A' <= c <= 'Z' then c as nat - 'A' as nat + 10
    else 36
  }

  /** The longest prefix of `s` made of digits of the given radix. */
  function DigitPrefix(s: string, radix: nat): (r: string)
    ensures |r| <= |s| && r == s[..|r|]
    ensures forall i | 0 <= i < |r| :: DigitValue(r[i]) < radix
    ensures |r| < |s| ==> DigitValue(s[|r|]) >= radix
    decreases |s|
  {
    if |s| == 0 || DigitValue(s[0]) >= radix then "" else [s[0]] + DigitPrefix(s[1..], radix)
  }

  /** The number a digit string denotes in the given radix, most significant digit first. */
  function DigitsValue(d: string, radix: nat): nat
    decreases |d|
  {
    if |d| == 0 then 0
    else DigitsValue(d[..|d| - 1], radix) * radix + DigitValue(d[|d| - 1])
  }

  /** The digits after an optional "0x"/"0X" prefix, read in the radix that prefix selects. */
  function ParseUnsigned(u: string): Option<nat> {
    var hex := |u| >= 2 && u[0] == '0' && (u[1] == 'x' || u[1] == 'X');
    var radix := if hex then 16 else 10;
    var digits := DigitPrefix(if hex then u[2..] else u, radix);
    if |digits| == 0 then None else Some(DigitsValue(digits, radix))
  }

  /** The value of the unsigned part under the sign read before it. */
  function Signed(negative: bool, n: Option<nat>): Option<int> {
    match n
    case None => None
    case Some(v) => Some(if negative then -(v as int) else v)
  }

  /** An optional sign followed by the unsigned part. */
  function ParseSigned(t: string): Option<int> {
    if |t| > 0 && (t[0] == '-' || t[0] == '+') then Signed(t[0] == '-', ParseUnsigned(t[1..]))
    else Signed(false, ParseUnsigned(t))
  }

  /** `parseInt(s)`: skip leading white space, read an optional sign, switch to radix 16
      after "0x" or "0X", then read the longest run of digits. `None` is NaN. */
  function ParseInt(s: string): Option<int> {
    ParseSigned(TrimStart(s))
  }

  lemma {:induction false} DigitPrefixOfDigits(d: string)
    requires AllDecimalDigits(d)
    ensures DigitPrefix(d, 10) == d
    decreases |d|
  {
    if |d| > 0 {
      DigitPrefixOfDigits(d[1..]);
    }
  }

  lemma TrimStartOfNonSpace(s: string)
    requires |s| > 0 && !IsStrWhiteSpace(s[0])
    ensures TrimStart(s) == s
  {
  }

  lemma TrimStartOfDigit(d: string)
    requires |d| > 0 && IsDecimalDigit(d[0])
    ensures TrimStart(d) == d
  {
    assert !IsStrWhiteSpace(d[0]);
    TrimStartOfNonSpace(d);
  }

  lemma ParseUnsignedOfDigits(d: string)
    requires |d| > 0 && AllDecimalDigits(d)
    ensures ParseUnsigned(d) == Some(DigitsValue(d, 10))
  {
    assert !(|d| >= 2 && d[0] == '0' && (d[1] == 'x' || d[1] == 'X')) by {
      if |d| >= 2 { assert IsDecimalDigit(d[1]); }
    }
    DigitPrefixOfDigits(d);
  }

  /** A non-empty run of decimal digits parses to the number it spells, leading zeros included. */
  lemma ParseIntOfDigits(d: string)
    requires |d| > 0 && AllDecimalDigits(d)
    ensures ParseInt(d) == Some(DigitsValue(d, 10))
  {
    assert IsDecimalDigit(d[0]);
    calc {
      ParseInt(d);
    == { TrimStartOfDigit(d); }
      ParseSigned(d);
    == { assert d[0] != '-' && d[0] != '+'; }
      Signed(false, ParseUnsigned(d));
    == { ParseUnsignedOfDigits(d); }
      Some(DigitsValue(d, 10));
    }
  }

  /** Reading back the decimal text of a natural number gives the number. */
  lemma {:induction false} DigitsValueOfNatText(n: nat)
    ensures DigitsValue(NatText(n), 10) == n
    decreases n
  {
    var t := NatText(n);
    if n >= 10 {
      DigitsValueOfNatText(n / 10);
      assert t[..|t| - 1] == NatText(n / 10);
    }
  }

  /** A leading "-" negates the unsigned part that follows it. */
  lemma ParseNegated(t: string)
    ensures ParseInt("-" + t) == Signed(true, ParseUnsigned(t))
  {
    var u := "-" + t;
    assert u[0] == '-' && u[1..] == t;
    TrimStartOfNonSpace(u);
  }

  /** A string that starts with a digit is its unsigned part. */
  lemma ParseIntOfUnsigned(t: string)
    requires |t| > 0 && IsDecimalDigit(t[0])
    ensures ParseInt(t) == Signed(false, ParseUnsigned(t))
  {
    TrimStartOfDigit(t);
  }

  /** `parseInt(String(n)) == n` for every integer printed in plain decimal. */
  lemma ParseIntOfIntText(n: int)
    ensures ParseInt(IntText(n)) == Some(n)
  {
    var m: nat := if n < 0 then -n else n;
    var t := NatText(m);
    DigitsValueOfNatText(m);
    ParseUnsignedOfDigits(t);
    if n < 0 {
      assert IntText(n) == "-" + t;
      ParseNegated(t);
    } else {
      assert IntText(n) == t;
      assert IsDecimalDigit(t[0]);
      ParseIntOfUnsigned(t);
    }
  }

  // ---------------------------------------------------------------------------
  // Global replacement of a literal placeholder

  /** Every occurrence of `pat`, scanning left to right without overlap, replaced by `repl`
      taken literally. */
  function ReplaceAll(s: string, pat: string, repl: string): string
    requires |pat| > 0
    decreases |s|
  {
    if |s| == 0 then ""
    else if StartsWith(s, pat) then repl + ReplaceAll(s[|pat|..], pat, repl)
    else [s[0]] + ReplaceAll(s[1..], pat, repl)
  }

  /** The text between the occurrences of `pat` that a left-to-right scan finds. */
  function Pieces(s: string, pat: string): (r: seq<string>)
    requires |pat| > 0
    ensures |r| > 0
    decreases |s|
  {
    if |s| == 0 then [""]
    else if StartsWith(s, pat) then [""] + Pieces(s[|pat|..], pat)
    else
      var p := Pieces(s[1..], pat);
      [[s[0]] + p[0]] + p[1..]
  }

  lemma JoinConsChar(c: char, p: seq<string>, sep: string)
    requires |p| > 0
    ensures Join([[c] + p[0]] + p[1..], sep) == [c] + Join(p, sep)
  {
    var q := [[c] + p[0]] + p[1..];
    assert q[1..] == p[1..];
  }

  lemma JoinConsEmpty(p: seq<string>, sep: string)
    requires |p| > 0
    ensures Join([""] + p, sep) == sep + Join(p, sep)
  {
    assert ([""] + p)[1..] == p;
  }

  /** `s` is its pieces joined by `pat`, and the replacement is the same pieces joined by
      `repl`: every occurrence the scan finds is replaced, and nothing else changes. */
  lemma {:induction false} ReplaceAllIsJoinOfPieces(s: string, pat: string, repl: string)
    requires |pat| > 0
    ensures Join(Pieces(s, pat), pat) == s
    ensures ReplaceAll(s, pat, repl) == Join(Pieces(s, pat), repl)
    decreases |s|
  {
    if |s| == 0 {
    } else if StartsWith(s, pat) {
      ReplaceAllIsJoinOfPieces(s[|pat|..], pat, repl);
      JoinConsEmpty(Pieces(s[|pat|..], pat), pat);
      JoinConsEmpty(Pieces(s[|pat|..], pat), repl);
      assert s == pat + s[|pat|..];
    } else {
      ReplaceAllIsJoinOfPieces(s[1..], pat, repl);
      JoinConsChar(s[0], Pieces(s[1..], pat), pat);
      JoinConsChar(s[0], Pieces(s[1..], pat), repl);
      assert s == [s[0]] + s[1..];
    }
  }

  lemma PrefixOfJoin(p: seq<string>, sep: string)
    requires |p| > 0
    ensures StartsWith(Join(p, sep), p[0])
  {
    if |p| > 1 {
      assert Join(p, sep) == p[0] + (sep + Join(p[1..], sep));
    }
  }

  lemma NothingOccursInEmpty(pat: string)
    requires |pat| > 0
    ensures !Contains("", pat)
  {
  }

  /** If `t` is a prefix of `c + rest`, `c + rest` does not start with `pat`, and `rest`'s
      prefix `t[1..]` does not contain `pat`, then neither does `t`. */
  lemma ConsIsFree(s: string, first: string, pat: string)
    requires |pat| > 0 && |s| > 0 && !StartsWith(s, pat)
    requires 0 < |first| <= |s| && first == s[..|first|]
    requires !Contains(first[1..], pat)
    ensures !Contains(first, pat)
  {
    forall j: nat | j <= |first| && OccursAt(first, pat, j)
      ensures false
    {
      if j > 0 {
        assert first[1..][j - 1..j - 1 + |pat|] == first[j..j + |pat|];
        assert OccursAt(first[1..], pat, j - 1);
      }
    }
  }

  /** No piece contains the pattern: the scan leaves no occurrence behind. */
  lemma {:induction false} PiecesAreFree(s: string, pat: string)
    requires |pat| > 0
    ensures forall k | 0 <= k < |Pieces(s, pat)| :: !Contains(Pieces(s, pat)[k], pat)
    decreases |s|
  {
    var r := Pieces(s, pat);
    if |s| == 0 {
      NothingOccursInEmpty(pat);
    } else if StartsWith(s, pat) {
      PiecesAreFree(s[|pat|..], pat);
      NothingOccursInEmpty(pat);
      assert r == [""] + Pieces(s[|pat|..], pat);
    } else {
      var p := Pieces(s[1..], pat);
      PiecesAreFree(s[1..], pat);
      ReplaceAllIsJoinOfPieces(s[1..], pat, pat);
      PrefixOfJoin(p, pat);
      var first := [s[0]] + p[0];
      assert first[1..] == p[0];
      assert first == s[..|first|];
      ConsIsFree(s, first, pat);
      assert r == [first] + p[1..];
    }
  }

  /** A template without the placeholder is returned unchanged. */
  lemma ReplaceAllWithoutOccurrence(s: string, pat: string, repl: string)
    requires |pat| > 0 && !Contains(s, pat)
    ensures ReplaceAll(s, pat, repl) == s
  {
    ReplaceAllIsJoinOfPieces(s, pat, repl);
    PiecesOfFree(s, pat);
  }

  lemma {:induction false} PiecesOfFree(s: string, pat: string)
    requires |pat| > 0 && !Contains(s, pat)
    ensures Pieces(s, pat) == [s]
    decreases |s|
  {
    if |s| > 0 {
      assert !OccursAt(s, pat, 0);
      forall j: nat | OccursAt(s[1..], pat, j) ensures false {
        assert s[j + 1..j + 1 + |pat|] == s[1..][j..j + |pat|];
        assert OccursAt(s, pat, j + 1);
      }
      PiecesOfFree(s[1..], pat);
      assert s == [s[0]] + s[1..];
    }
  }

  // ---------------------------------------------------------------------------
  // `str.replace(/pat/g, repl)` as JavaScript evaluates it

  /** GetSubstitution for a pattern without capture groups: in `repl`, "$$" is "$",
      "$&" is the matched text, "$`" the text before the match and "$'" the text after it;
      every other "$" is literal. */
  function Expand(repl: string, matched: string, before: string, after: string): string
    decreases |repl|
  {
    if |repl| == 0 then ""
    else if repl[0] == '$' && |repl| >= 2 && repl[1] == '$' then "$" + Expand(repl[2..], matched, before, after)
    else if repl[0] == '$' && |repl| >= 2 && repl[1] == '&' then matched + Expand(repl[2..], matched, before, after)
    else if repl[0] == '$' && |repl| >= 2 && repl[1] == '`' then before + Expand(repl[2..], matched, before, after)
    else if repl[0] == '$' && |repl| >= 2 && repl[1] == '\'' then after + Expand(repl[2..], matched, before, after)
    else [repl[0]] + Expand(repl[1..], matched, before, after)
  }

  /** `str.replace(/pat/g, repl)` for a regular expression that matches exactly the literal
      text `pat`: the scan from index `i` onwards. */
  function ReplaceGlobalJsFrom(str: string, pat: string, repl: string, i: nat): string
    requires |pat| > 0 && i <= |str|
    decreases |str| - i
  {
    if i == |str| then ""
    else if OccursAt(str, pat, i) then
      Expand(repl, pat, str[..i], str[i + |pat|..]) + ReplaceGlobalJsFrom(str, pat, repl, i + |pat|)
    else [str[i]] + ReplaceGlobalJsFrom(str, pat, repl, i + 1)
  }

  function ReplaceGlobalJs(str: string, pat: string, repl: string): string
    requires |pat| > 0
  {
    ReplaceGlobalJsFrom(str, pat, repl, 0)
  }

  lemma {:induction false} ExpandWithoutDollar(repl: string, matched: string, before: string, after: string)
    requires forall i | 0 <= i < |repl| :: repl[i] != '$'
    ensures Expand(repl, matched, before, after) == repl
    decreases |repl|
  {
    if |repl| > 0 {
      ExpandWithoutDollar(repl[1..], matched, before, after);
    }
  }

  /** An occurrence at index `i` is a prefix of the suffix from `i`. */
  lemma OccursAtIsStartsWith(str: string, pat: string, i: nat)
    requires i <= |str|
    ensures StartsWith(str[i..], pat) == OccursAt(str, pat, i)
  {
    if i + |pat| <= |str| {
      assert str[i..][..|pat|] == str[i..i + |pat|];
    }
  }

  lemma {:induction false} ReplaceGlobalJsFromLiteral(str: string, pat: string, repl: string, i: nat)
    requires |pat| > 0 && i <= |str|
    requires forall k | 0 <= k < |repl| :: repl[k] != '$'
    ensures ReplaceGlobalJsFrom(str, pat, repl, i) == ReplaceAll(str[i..], pat, repl)
    decreases |str| - i
  {
    var s := str[i..];
    if i < |str| {
      OccursAtIsStartsWith(str, pat, i);
      if OccursAt(str, pat, i) {
        ExpandWithoutDollar(repl, pat, str[..i], str[i + |pat|..]);
        assert ReplaceGlobalJsFrom(str, pat, repl, i) == repl + ReplaceGlobalJsFrom(str, pat, repl, i + |pat|);
        ReplaceGlobalJsFromLiteral(str, pat, repl, i + |pat|);
        assert s[|pat|..] == str[i + |pat|..];
        assert ReplaceAll(s, pat, repl) == repl + ReplaceAll(str[i + |pat|..], pat, repl);
      } else {
        assert ReplaceGlobalJsFrom(str, pat, repl, i) == [str[i]] + ReplaceGlobalJsFrom(str, pat, repl, i + 1);
        ReplaceGlobalJsFromLiteral(str, pat, repl, i + 1);
        assert s[1..] == str[i + 1..];
        assert ReplaceAll(s, pat, repl) == [str[i]] + ReplaceAll(str[i + 1..], pat, repl);
      }
    }
  }

  /** For a replacement without "$" the JavaScript replacement and the literal one agree. */
  lemma ReplaceGlobalJsAgreesWithoutDollar(str: string, pat: string, repl: string)
    requires |pat| > 0
    requires forall k | 0 <= k < |repl| :: repl[k] != '$'
    ensures ReplaceGlobalJs(str, pat, repl) == ReplaceAll(str, pat, repl)
  {
    ReplaceGlobalJsFromLiteral(str, pat, repl, 0);
    assert str[0..] == str;
  }
}
