/** The string operations the script applies through pandas' `.str` accessor:
    `lower()`, `strip()` and `replace(' ', '_')`. */
module Text {

  /** Python's `str.isspace()` for one character: the characters `strip()` removes. */
  predicate IsSpace(c: char) {
    || c == ' ' || c == '\t' || c == '\n' || c == '\r'
    || c == '\U{B}' || c == '\U{C}'
    || ('\U{1C}' <= c <= '\U{1F}')
    || c == '\U{85}' || c == '\U{A0}' || c == '\U{1680}'
    || ('\U{2000}' <= c <= '\U{200A}')
    || c == '\U{2028}' || c == '\U{2029}' || c == '\U{202F}' || c == '\U{205F}' || c == '\U{3000}'
  }

  predicate IsUpper(c: char) {
    'A' <= c <= 'Z'
  }

  /** Lower-cases one ASCII letter; every other character is left as it is. */
  function LowerChar(c: char): (d: char)
    ensures IsUpper(c) ==> d as int - 'a' as int == c as int - 'A' as int
    ensures !IsUpper(d)
    ensures IsSpace(d) <==> IsSpace(c)
    ensures !IsUpper(c) ==> d == c
  {
    if IsUpper(c) then (c as int + 32) as char else c
  }

  /** `str.lower()`. */
  function Lower(s: string): (r: string)
    ensures |r| == |s|
    ensures forall i :: 0 <= i < |s| ==> r[i] == LowerChar(s[i])
  {
    seq(|s|, i requires 0 <= i < |s| => LowerChar(s[i]))
  }

  /** The first index at or after i whose character is not whitespace (|s| if there is
      none): where `lstrip()` starts the result. */
  function SkipSpaces(s: string, i: nat): (k: nat)
    requires i <= |s|
    ensures i <= k <= |s|
    ensures forall m :: i <= m < k ==> IsSpace(s[m])
    ensures k < |s| ==> !IsSpace(s[k])
    decreases |s| - i
  {
    if i < |s| && IsSpace(s[i]) then SkipSpaces(s, i + 1) else i
  }

  /** The index just past the last character before j that is not whitespace, and not
      below a: where `rstrip()` ends the result. */
  function SkipSpacesBack(s: string, a: nat, j: nat): (k: nat)
    requires a <= j <= |s|
    ensures a <= k <= j
    ensures forall m :: k <= m < j ==> IsSpace(s[m])
    ensures a < k ==> !IsSpace(s[k - 1])
    decreases j
  {
    if a < j && IsSpace(s[j - 1]) then SkipSpacesBack(s, a, j - 1) else j
  }

  /** `str.strip()`: the characters between the leading and the trailing whitespace. */
  function Strip(s: string): (r: string)
    ensures |r| <= |s|
  {
    var a := SkipSpaces(s, 0);
    s[a..SkipSpacesBack(s, a, |s|)]
  }

  /** No whitespace at either end. */
  predicate Trimmed(s: string) {
    s == [] || (!IsSpace(s[0]) && !IsSpace(s[|s| - 1]))
  }

  predicate NoUpper(s: string) {
    forall i :: 0 <= i < |s| ==> !IsUpper(s[i])
  }

  /** What `strip()` returns: the slice of the input between a whitespace prefix and a
      whitespace suffix, with no whitespace at either end, so that nothing but
      whitespace is removed and all of the margins are. */
  lemma StripTrims(s: string)
    ensures var a := SkipSpaces(s, 0); var b := SkipSpacesBack(s, a, |s|);
      && Strip(s) == s[a..b]
      && Trimmed(Strip(s))
      && (forall i :: 0 <= i < a ==> IsSpace(s[i]))
      && (forall i :: b <= i < |s| ==> IsSpace(s[i]))
  {
    StripLeading(s);
    StripTrailing(s);
    StripSlice(s);
    StripTrimmed(s);
  }

  lemma StripLeading(s: string)
    ensures forall i :: 0 <= i < SkipSpaces(s, 0) ==> IsSpace(s[i])
  {
  }

  lemma StripTrailing(s: string)
    ensures var a := SkipSpaces(s, 0); forall i :: SkipSpacesBack(s, a, |s|) <= i < |s| ==> IsSpace(s[i])
  {
  }

  lemma StripSlice(s: string)
    ensures var a := SkipSpaces(s, 0); Strip(s) == s[a..SkipSpacesBack(s, a, |s|)]
  {
  }

  // The characters at the ends of the slice are not whitespace.
  lemma StripTrimmed(s: string)
    ensures Trimmed(Strip(s))
  {
    var a := SkipSpaces(s, 0);
    var b := SkipSpacesBack(s, a, |s|);
    if a < b {
      assert Strip(s)[0] == s[a] && Strip(s)[b - a - 1] == s[b - 1];
    }
  }

  /** Strip keeps a substring, so it brings in no upper-case letter. */
  lemma StripNoUpper(s: string)
    requires NoUpper(s)
    ensures NoUpper(Strip(s)) && Trimmed(Strip(s))
  {
    StripSlice(s);
    StripTrimmed(s);
    var a := SkipSpaces(s, 0);
    var r := Strip(s);
    forall i | 0 <= i < |r| ensures !IsUpper(r[i]) {
      assert r[i] == s[a + i];
    }
  }

  /** A string with no whitespace at either end is its own strip. */
  lemma StripUnchanged(s: string)
    requires Trimmed(s)
    ensures Strip(s) == s
  {
  }

  /** `str.replace(' ', '_')`: every space becomes an underscore. */
  function ReplaceSpaces(s: string): (r: string)
    ensures |r| == |s|
    ensures forall i :: 0 <= i < |s| ==> r[i] != ' '
    ensures forall i :: 0 <= i < |s| ==> s[i] == ' ' ==> r[i] == '_'
    ensures forall i :: 0 <= i < |s| ==> s[i] != ' ' ==> r[i] == s[i]
  {
    seq(|s|, i requires 0 <= i < |s| => if s[i] == ' ' then '_' else s[i])
  }

  /** `.str.lower().str.strip().str.replace(' ', '_')` on a column label: the result has
      no upper-case letter, no space, and no whitespace at either end. */
  function StandardizeName(s: string): (r: string)
    ensures NoUpper(r) && Trimmed(r)
    ensures forall i :: 0 <= i < |r| ==> r[i] != ' '
  {
    var t := Strip(Lower(s));
    StripNoUpper(Lower(s));
    var r := ReplaceSpaces(t);
    assert r == [] || (r[0] == t[0] && r[|r| - 1] == t[|t| - 1]);
    r
  }

  /** `.str.lower().str.strip()` on a categorical value: the result has no upper-case
      letter and no whitespace at either end. */
  function NormalizeValue(s: string): (r: string)
    ensures NoUpper(r) && Trimmed(r)
  {
    StripNoUpper(Lower(s));
    Strip(Lower(s))
  }

  lemma LowerUnchanged(s: string)
    requires NoUpper(s)
    ensures Lower(s) == s
  {
  }

  lemma ReplaceUnchanged(s: string)
    requires forall i :: 0 <= i < |s| ==> s[i] != ' '
    ensures ReplaceSpaces(s) == s
  {
  }

  /** Standardizing a standardized label changes nothing. */
  lemma StandardizeNameIdempotent(s: string)
    ensures StandardizeName(StandardizeName(s)) == StandardizeName(s)
  {
    var t := StandardizeName(s);
    LowerUnchanged(t);
    StripUnchanged(t);
    ReplaceUnchanged(t);
  }

  /** Normalizing a normalized value changes nothing. */
  lemma NormalizeValueIdempotent(s: string)
    ensures NormalizeValue(NormalizeValue(s)) == NormalizeValue(s)
  {
    var t := NormalizeValue(s);
    LowerUnchanged(t);
    StripUnchanged(t);
  }

  /** The report's example: the column label "Year_Birth" becomes "year_birth". */
  lemma StandardizeYearBirth()
    ensures StandardizeName("Year_Birth") == "year_birth"
  {
    var low := Lower("Year_Birth");
    assert low[0] == 'y' && low[4] == '_';
    assert low == "year_birth";
    assert Trimmed(low);
    StripUnchanged(low);
    ReplaceUnchanged(low);
  }

  /** The same label with a trailing space: stripping before replacing keeps the space
      from becoming an underscore. */
  lemma StandardizePaddedYearBirth()
    ensures StandardizeName("Year_Birth ") == "year_birth"
  {
    var low := Lower("Year_Birth ");
    assert low[0] == 'y' && low[4] == '_' && low[10] == ' ';
    assert low == "year_birth ";
    assert SkipSpaces(low, 0) == 0;
    assert SkipSpacesBack(low, 0, 11) == SkipSpacesBack(low, 0, 10) == 10;
    var stripped := Strip(low);
    assert stripped == "year_birth";
    ReplaceUnchanged(stripped);
  }

  /** Replacing first, then lower-casing, then stripping turns the trailing space of the
      same label into an underscore: the two orders differ. */
  lemma ReplaceFirstKeepsPad()
    ensures Strip(Lower(ReplaceSpaces("Year_Birth "))) == "year_birth_"
  {
    var replaced := ReplaceSpaces("Year_Birth ");
    assert replaced[10] == '_';
    var low := Lower(replaced);
    assert low[0] == 'y' && low[4] == '_' && low[10] == '_';
    assert low == "year_birth_";
    assert Trimmed(low);
    StripUnchanged(low);
  }
}
