/**
  The filename sanitizer of the chapter splitter: every reserved character
  (backslash, slash, star, question mark, colon, double quote, less-than,
  greater-than, bar) becomes '_', then leading and trailing whitespace is
  stripped as Python's `str.strip()` with no argument does.
 */
module Sanitizer {

  /** The characters of the regular-expression class the substitution matches. */
  predicate IsReserved(c: char)
  {
    c == '\\' || c == '/' || c == '*' || c == '?' || c == ':' || c == '"' || c == '<' || c == '>' || c == '|'
  }

  /** The code points for which Python's `str.isspace` holds: the characters `str.strip()` removes. */
  const SpaceCodes: set<int> :=
    {9, 10, 11, 12, 13, 28, 29, 30, 31, 32, 0x85, 0xA0, 0x1680,
     0x2000, 0x2001, 0x2002, 0x2003, 0x2004, 0x2005, 0x2006, 0x2007, 0x2008, 0x2009, 0x200A,
     0x2028, 0x2029, 0x202F, 0x205F, 0x3000}

  predicate IsSpace(c: char)
  {
    c as int in SpaceCodes
  }

  predicate NoReserved(s: string)
  {
    forall i :: 0 <= i < |s| ==> !IsReserved(s[i])
  }

  /** Neither the first nor the last character is whitespace. */
  predicate Trimmed(s: string)
  {
    s == [] || (!IsSpace(s[0]) && !IsSpace(s[|s| - 1]))
  }

  /** What the substitution makes of one character. */
  function Substitute(c: char): char
  {
    if IsReserved(c) then '_' else c
  }

  /** The substitution step: each reserved character becomes '_', every other one stays. */
  function ReplaceReserved(s: string): (r: string)
    ensures |r| == |s|
    ensures forall i :: 0 <= i < |s| ==> r[i] == Substitute(s[i])
    ensures NoReserved(r)
  {
    if s == [] then [] else [Substitute(s[0])] + ReplaceReserved(s[1..])
  }

  /** The number of whitespace characters at the start: all of them are, the next one is not. */
  function LeadingSpaces(s: string): (k: nat)
    ensures k <= |s|
    ensures forall i :: 0 <= i < k ==> IsSpace(s[i])
    ensures k < |s| ==> !IsSpace(s[k])
  {
    if s != [] && IsSpace(s[0]) then 1 + LeadingSpaces(s[1..]) else 0
  }

  /** The number of whitespace characters at the end: all of them are, the one before is not. */
  function TrailingSpaces(s: string): (k: nat)
    ensures k <= |s|
    ensures forall i :: |s| - k <= i < |s| ==> IsSpace(s[i])
    ensures k < |s| ==> !IsSpace(s[|s| - 1 - k])
  {
    if s != [] && IsSpace(s[|s| - 1]) then 1 + TrailingSpaces(s[..|s| - 1]) else 0
  }

  /**
    Python's `str.strip()`: the part of `s` after its leading whitespace, up to
    where only whitespace follows.
   */
  function Strip(s: string): (r: string)
    ensures LeadingSpaces(s) + |r| <= |s|
    ensures r == s[LeadingSpaces(s)..LeadingSpaces(s) + |r|]
    ensures forall i :: LeadingSpaces(s) + |r| <= i < |s| ==> IsSpace(s[i])
    ensures Trimmed(r)
  {
    var a := LeadingSpaces(s);
    if a == |s| then [] else s[a..|s| - TrailingSpaces(s)]
  }

  /** `sanitize_filename`: substitute the reserved characters, then strip. */
  function SanitizeFilename(name: string): (r: string)
    ensures NoReserved(r)
    ensures Trimmed(r)
    ensures |r| <= |name|
  {
    var t := ReplaceReserved(name);
    var r := Strip(t);
    assert NoReserved(r) by {
      forall i | 0 <= i < |r|
        ensures !IsReserved(r[i])
      {
        assert r[i] == t[LeadingSpaces(t) + i];
      }
    }
    r
  }

  /** Reserved characters and the replacement '_' are not whitespace. */
  lemma ReservedNotSpace(c: char)
    requires IsReserved(c) || c == '_'
    ensures !IsSpace(c)
  {
  }

  /** Substituting the reserved characters neither creates nor removes whitespace. */
  lemma ReplaceKeepsSpace(s: string)
    ensures forall i :: 0 <= i < |s| ==> (IsSpace(ReplaceReserved(s)[i]) <==> IsSpace(s[i]))
  {
    forall i | 0 <= i < |s|
      ensures IsSpace(ReplaceReserved(s)[i]) <==> IsSpace(s[i])
    {
      if IsReserved(s[i]) {
        ReservedNotSpace(s[i]);
        ReservedNotSpace('_');
      }
    }
  }

  /** A count of leading whitespace is determined by where whitespace stops. */
  lemma LeadingSpacesUnique(s: string, k: nat)
    requires k <= |s|
    requires forall i :: 0 <= i < k ==> IsSpace(s[i])
    requires k < |s| ==> !IsSpace(s[k])
    ensures LeadingSpaces(s) == k
  {
  }

  /** A count of trailing whitespace is determined by where whitespace stops. */
  lemma TrailingSpacesUnique(s: string, k: nat)
    requires k <= |s|
    requires forall i :: |s| - k <= i < |s| ==> IsSpace(s[i])
    requires k < |s| ==> !IsSpace(s[|s| - 1 - k])
    ensures TrailingSpaces(s) == k
  {
  }

  /** A string with no whitespace at either end is left as it is by Strip. */
  lemma StripTrimmed(s: string)
    requires Trimmed(s)
    ensures Strip(s) == s
  {
    if s != [] {
      LeadingSpacesUnique(s, 0);
      TrailingSpacesUnique(s, 0);
    }
  }

  /** A string without reserved characters is left as it is by the substitution. */
  lemma ReplaceNoReserved(s: string)
    requires NoReserved(s)
    ensures ReplaceReserved(s) == s
  {
  }

  /** Sanitizing twice is the same as sanitizing once. */
  lemma SanitizeIdempotent(name: string)
    ensures SanitizeFilename(SanitizeFilename(name)) == SanitizeFilename(name)
  {
    var r := SanitizeFilename(name);
    ReplaceNoReserved(r);
    StripTrimmed(r);
  }

  /**
    Sanitizing is the same as stripping first and substituting afterwards: so
    besides replacing reserved characters, the sanitizer only removes the
    whitespace at the two ends of the title, whose shape Strip's contract gives.
   */
  lemma SanitizeStripFirst(name: string)
    ensures SanitizeFilename(name) == ReplaceReserved(Strip(name))
  {
    var t := ReplaceReserved(name);
    ReplaceKeepsSpace(name);
    LeadingSpacesUnique(t, LeadingSpaces(name));
    TrailingSpacesUnique(t, TrailingSpaces(name));
    var a := LeadingSpaces(name);
    var b := if a == |name| then a else |name| - TrailingSpaces(name);
    assert Strip(name) == name[a..b];
    assert Strip(t) == t[a..b];
    ReplaceSlice(name, a, b);
  }

  /** Substituting and slicing commute. */
  lemma ReplaceSlice(s: string, a: nat, b: nat)
    requires a <= b <= |s|
    ensures ReplaceReserved(s)[a..b] == ReplaceReserved(s[a..b])
  {
    var l, r := ReplaceReserved(s)[a..b], ReplaceReserved(s[a..b]);
    assert |l| == |r|;
    forall i | 0 <= i < |l|
      ensures l[i] == r[i]
    {
      assert s[a..b][i] == s[a + i];
    }
  }

  /** The substitution step of the example below, one character at a time. */
  lemma ReplaceExample(s: string)
    requires s == "Ch:1/Intro?"
    ensures ReplaceReserved(s) == "Ch_1_Intro_"
  {
    var t := ReplaceReserved(s);
    assert t[0] == Substitute(s[0]) == 'C';
    assert t[1] == Substitute(s[1]) == 'h';
    assert t[2] == Substitute(s[2]) == '_';
    assert t[3] == Substitute(s[3]) == '1';
    assert t[4] == Substitute(s[4]) == '_';
    assert t[5] == Substitute(s[5]) == 'I';
    assert t[6] == Substitute(s[6]) == 'n';
    assert t[7] == Substitute(s[7]) == 't';
    assert t[8] == Substitute(s[8]) == 'r';
    assert t[9] == Substitute(s[9]) == 'o';
    assert t[10] == Substitute(s[10]) == '_';
  }

  /** The title "Ch:1/Intro?" end to end: it becomes "Ch_1_Intro_". */
  lemma SanitizeExample(name: string)
    requires name == "Ch:1/Intro?"
    ensures SanitizeFilename(name) == "Ch_1_Intro_"
  {
    ReplaceExample(name);
    var t := ReplaceReserved(name);
    assert !IsSpace(t[0]) && !IsSpace(t[|t| - 1]) by {
      ReservedNotSpace('_');
    }
    StripTrimmed(t);
  }
}
