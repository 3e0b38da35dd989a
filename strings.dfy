/**
 * The Python str operations the converters apply: strip(), replace(),
 * title() and str() of a non-negative int.
 */
module Strings {

  /** The characters str.isspace() accepts, which str.strip() removes from both ends. */
  predicate IsSpace(c: char)
  {
    || c == ' '
    || ('\t' <= c <= '\r')
    || ('\U{1c}' <= c <= '\U{1f}')
    || c == '\U{85}' || c == '\U{a0}' || c == '\U{1680}'
    || ('\U{2000}' <= c <= '\U{200a}')
    || c == '\U{2028}' || c == '\U{2029}' || c == '\U{202f}' || c == '\U{205f}' || c == '\U{3000}'
  }

  /** Every character of s is white space (true of the empty string). */
  predicate IsBlank(s: string)
  {
    forall i :: 0 <= i < |s| ==> IsSpace(s[i])
  }

  /** s without its leading white space. */
  function TrimStart(s: string): string
  {
    if s != [] && IsSpace(s[0]) then TrimStart(s[1..]) else s
  }

  lemma {:induction false} TrimStartSpec(s: string)
    ensures |TrimStart(s)| <= |s| && TrimStart(s) == s[|s| - |TrimStart(s)|..]
    ensures IsBlank(s[..|s| - |TrimStart(s)|])
    ensures TrimStart(s) == [] || !IsSpace(TrimStart(s)[0])
  {
    if s != [] && IsSpace(s[0]) {
      TrimStartSpec(s[1..]);
      var k := |s| - |TrimStart(s)|;
      assert s[..k] == [s[0]] + s[1..][..k - 1];
      BlankAppend([s[0]], s[1..][..k - 1]);
    }
  }

  /** s without its trailing white space. */
  function TrimEnd(s: string): string
  {
    if s != [] && IsSpace(s[|s| - 1]) then TrimEnd(s[..|s| - 1]) else s
  }

  lemma {:induction false} TrimEndSpec(s: string)
    ensures |TrimEnd(s)| <= |s| && TrimEnd(s) == s[..|TrimEnd(s)|]
    ensures IsBlank(s[|TrimEnd(s)|..])
    ensures TrimEnd(s) == [] || !IsSpace(TrimEnd(s)[|TrimEnd(s)| - 1])
  {
    if s != [] && IsSpace(s[|s| - 1]) {
      var p := s[..|s| - 1];
      TrimEndSpec(p);
      var k := |TrimEnd(s)|;
      assert s[k..] == p[k..] + [s[|s| - 1]];
      BlankAppend(p[k..], [s[|s| - 1]]);
    }
  }

  /** str.strip(): s with white space taken off both ends. */
  function Strip(s: string): string
  {
    TrimEnd(TrimStart(s))
  }

  /**
   * What strip() promises: the result sits in s between a blank prefix and
   * a blank suffix, does not itself begin or end with white space, and is
   * empty exactly when s is blank.
   */
  lemma StripSpec(s: string)
    ensures Strip(s) == [] || (!IsSpace(Strip(s)[0]) && !IsSpace(Strip(s)[|Strip(s)| - 1]))
    ensures Strip(s) == [] <==> IsBlank(s)
    ensures |TrimStart(s)| <= |s| && StripsAt(s, Strip(s), |s| - |TrimStart(s)|)
  {
    StripEnds(s);
    StripBlank(s);
    StripPosition(s);
  }

  lemma StripEnds(s: string)
    ensures Strip(s) == [] || (!IsSpace(Strip(s)[0]) && !IsSpace(Strip(s)[|Strip(s)| - 1]))
  {
    var t := TrimStart(s);
    TrimStartSpec(s);
    var r := TrimEnd(t);
    TrimEndSpec(t);
    TrimComposed(s, t, r, |s| - |t|);
  }

  lemma StripBlank(s: string)
    ensures Strip(s) == [] <==> IsBlank(s)
  {
    var t := TrimStart(s);
    TrimStartSpec(s);
    var r := TrimEnd(t);
    TrimEndSpec(t);
    TrimComposed(s, t, r, |s| - |t|);
  }

  lemma StripPosition(s: string)
    ensures |TrimStart(s)| <= |s| && StripsAt(s, Strip(s), |s| - |TrimStart(s)|)
  {
    var t := TrimStart(s);
    TrimStartSpec(s);
    var r := TrimEnd(t);
    TrimEndSpec(t);
    TrimComposed(s, t, r, |s| - |t|);
  }

  /** r sits in s at index i, and only white space surrounds it there. */
  predicate StripsAt(s: string, r: string, i: nat)
  {
    i + |r| <= |s| && s[i..i + |r|] == r && IsBlank(s[..i]) && IsBlank(s[i + |r|..])
  }

  lemma BlankAppend(a: string, b: string)
    ensures IsBlank(a + b) <==> IsBlank(a) && IsBlank(b)
  {
    if IsBlank(a) && IsBlank(b) {
      forall k | 0 <= k < |a + b| ensures IsSpace((a + b)[k]) {
        if k >= |a| { assert (a + b)[k] == b[k - |a|]; }
      }
    }
    if IsBlank(a + b) {
      forall k | 0 <= k < |a| ensures IsSpace(a[k]) { assert a[k] == (a + b)[k]; }
      forall k | 0 <= k < |b| ensures IsSpace(b[k]) { assert b[k] == (a + b)[|a| + k]; }
    }
  }

  /** The facts about the two trims, put together without unfolding either. */
  lemma TrimComposed(s: string, t: string, r: string, i: nat)
    requires i + |t| == |s| && t == s[i..] && IsBlank(s[..i]) && (t == [] || !IsSpace(t[0]))
    requires |r| <= |t| && r == t[..|r|] && IsBlank(t[|r|..]) && (r == [] || !IsSpace(r[|r| - 1]))
    ensures r == [] || (!IsSpace(r[0]) && !IsSpace(r[|r| - 1]))
    ensures r == [] <==> IsBlank(s)
    ensures StripsAt(s, r, i)
  {
    assert s[i..i + |r|] == r;
    assert s[i + |r|..] == t[|r|..];
    TrimParts(s, t, i);
    assert t[0..|r|] == r;
    TrimParts(t, r, 0);
    if r != [] { assert r[0] == t[0]; }
  }

  /** s is made of a blank prefix, then the trimmed string t, then a blank tail. */
  lemma TrimParts(s: string, t: string, i: nat)
    requires i + |t| <= |s| && s[i..i + |t|] == t && IsBlank(s[..i]) && IsBlank(s[i + |t|..])
    ensures IsBlank(s) <==> IsBlank(t)
  {
    assert s == s[..i] + t + s[i + |t|..];
    BlankAppend(s[..i], t);
    BlankAppend(s[..i] + t, s[i + |t|..]);
  }

  /** Once a blank prefix is followed by a non-space character, TrimStart stops there. */
  lemma {:induction false} TrimStartAt(s: string, i: nat)
    requires i <= |s| && IsBlank(s[..i]) && (i == |s| || !IsSpace(s[i]))
    ensures TrimStart(s) == s[i..]
    decreases i
  {
    if i > 0 {
      assert s[0] == s[..i][0];
      assert s[1..][..i - 1] == s[1..i];
      assert s[1..][i - 1..] == s[i..];
      TrimStartAt(s[1..], i - 1);
    } else if s != [] {
      assert !IsSpace(s[0]);
    }
  }

  /** Once a blank suffix is preceded by a non-space character, TrimEnd stops there. */
  lemma {:induction false} TrimEndAt(s: string, j: nat)
    requires j <= |s| && IsBlank(s[j..]) && (j == 0 || !IsSpace(s[j - 1]))
    ensures TrimEnd(s) == s[..j]
    decreases |s| - j
  {
    if j < |s| {
      assert s[|s| - 1] == s[j..][|s| - 1 - j];
      var p := s[..|s| - 1];
      assert p[j..] == s[j..|s| - 1];
      assert p[..j] == s[..j];
      TrimEndAt(p, j);
    } else {
      assert s[..j] == s;
    }
  }

  /**
   * Strip(s) is the only piece of s that only white space surrounds and
   * that does not itself begin or end with white space (for s not blank).
   */
  lemma StripUnique(s: string, r: string, i: nat)
    requires StripsAt(s, r, i)
    requires r != [] && !IsSpace(r[0]) && !IsSpace(r[|r| - 1])
    ensures Strip(s) == r
  {
    StripSpec(s);
    assert s[i] == r[0];
    TrimStartAt(s, i);
    var t := s[i..];
    assert t[|r|..] == s[i + |r|..];
    assert t[|r| - 1] == r[|r| - 1];
    TrimEndAt(t, |r|);
  }

  lemma StripIdempotent(s: string)
    ensures Strip(Strip(s)) == Strip(s)
  {
    var r := Strip(s);
    StripSpec(s);
    if r != [] {
      assert r[0..|r|] == r && r[..0] == [] && r[|r|..] == [];
      StripUnique(r, r, 0);
    }
  }

  // ---- str.replace(old, new) ----

  /** pat occurs in s at index i. */
  predicate StartsAt(s: string, pat: string, i: nat)
  {
    i + |pat| <= |s| && s[i..i + |pat|] == pat
  }

  /** Dropping the first character moves every occurrence one place to the left. */
  lemma StartsAtShift(s: string, pat: string, i: nat)
    requires |s| > 0
    ensures StartsAt(s[1..], pat, i) <==> StartsAt(s, pat, i + 1)
  {
    if i + 1 + |pat| <= |s| {
      assert s[1..][i..i + |pat|] == s[i + 1..i + 1 + |pat|];
    }
  }

  /** s.replace(pat, rep): every occurrence of pat, scanning left to right without overlap, becomes rep. */
  function ReplaceAll(s: string, pat: string, rep: string): string
    requires |pat| > 0
    decreases |s|
  {
    if |s| < |pat| then s
    else if StartsAt(s, pat, 0) then rep + ReplaceAll(s[|pat|..], pat, rep)
    else [s[0]] + ReplaceAll(s[1..], pat, rep)
  }

  /** Where pat does not occur, replace changes nothing. */
  lemma {:induction false} ReplaceAbsent(s: string, pat: string, rep: string)
    requires |pat| > 0
    requires forall i: nat :: !StartsAt(s, pat, i)
    ensures ReplaceAll(s, pat, rep) == s
    decreases |s|
  {
    if |s| >= |pat| {
      assert !StartsAt(s, pat, 0);
      forall i: nat ensures !StartsAt(s[1..], pat, i) {
        StartsAtShift(s, pat, i);
      }
      ReplaceAbsent(s[1..], pat, rep);
    }
  }

  /**
   * At the first occurrence of pat, rep is put in its place and the scan
   * goes on after it, so every later occurrence is replaced too.
   */
  lemma {:induction false} ReplaceFirstOccurrence(a: string, pat: string, b: string, rep: string)
    requires |pat| > 0
    requires forall i: nat :: i < |a| ==> !StartsAt(a + pat + b, pat, i)
    ensures ReplaceAll(a + pat + b, pat, rep) == a + rep + ReplaceAll(b, pat, rep)
    decreases |a|
  {
    var s := a + pat + b;
    if a == [] {
      assert s == pat + b && s[..|pat|] == pat && s[|pat|..] == b;
    } else {
      var a' := a[1..];
      assert !StartsAt(s, pat, 0);
      assert s[1..] == a' + pat + b;
      forall i: nat | i < |a'| ensures !StartsAt(a' + pat + b, pat, i) {
        StartsAtShift(s, pat, i);
      }
      ReplaceFirstOccurrence(a', pat, b, rep);
      calc {
        ReplaceAll(s, pat, rep);
        [s[0]] + ReplaceAll(a' + pat + b, pat, rep);
        [a[0]] + (a' + rep + ReplaceAll(b, pat, rep));
        { assert [a[0]] + a' == a; }
        a + rep + ReplaceAll(b, pat, rep);
      }
    }
  }

  /** Replacing one character by another works character by character. */
  lemma {:induction false} ReplaceChar(s: string, c: char, d: char)
    ensures |ReplaceAll(s, [c], [d])| == |s|
    ensures forall i :: 0 <= i < |s| ==> ReplaceAll(s, [c], [d])[i] == if s[i] == c then d else s[i]
    decreases |s|
  {
    if s != [] {
      ReplaceChar(s[1..], c, d);
      assert StartsAt(s, [c], 0) <==> s[0] == c by { assert s[0..1] == [s[0]]; }
    }
  }

  /** Replacing by a piece of the same length keeps the length. */
  lemma {:induction false} ReplaceKeepsLength(s: string, pat: string, rep: string)
    requires |pat| > 0 && |rep| == |pat|
    ensures |ReplaceAll(s, pat, rep)| == |s|
    decreases |s|
  {
    if |s| >= |pat| {
      if StartsAt(s, pat, 0) { ReplaceKeepsLength(s[|pat|..], pat, rep); }
      else { ReplaceKeepsLength(s[1..], pat, rep); }
    }
  }

  // ---- str.title(), for ASCII letters ----

  predicate IsAsciiLetter(c: char)
  {
    'a' <= c <= 'z' || 'A' <= c <= 'Z'
  }

  function ToUpper(c: char): char
  {
    if 'a' <= c <= 'z' then (c as int - 32) as char else c
  }

  function ToLower(c: char): char
  {
    if 'A' <= c <= 'Z' then (c as int + 32) as char else c
  }

  /** title() from a point where the previous character was (afterLetter) or was not a letter. */
  function TitleFrom(s: string, afterLetter: bool): string
  {
    if s == [] then []
    else if IsAsciiLetter(s[0]) then
      [if afterLetter then ToLower(s[0]) else ToUpper(s[0])] + TitleFrom(s[1..], true)
    else [s[0]] + TitleFrom(s[1..], false)
  }

  /** str.title(): a letter is upper case when it starts a run of letters and lower case otherwise. */
  function TitleCase(s: string): string
  {
    TitleFrom(s, false)
  }

  /** title() decided one character at a time, from the character and the one before it. */
  function TitleCharAt(s: string, i: nat): char
    requires i < |s|
  {
    if !IsAsciiLetter(s[i]) then s[i]
    else if i > 0 && IsAsciiLetter(s[i - 1]) then ToLower(s[i])
    else ToUpper(s[i])
  }

  lemma {:induction false} TitleFromAt(s: string, afterLetter: bool, i: nat)
    requires i < |s|
    ensures |TitleFrom(s, afterLetter)| == |s|
    ensures TitleFrom(s, afterLetter)[i] ==
      if !IsAsciiLetter(s[i]) then s[i]
      else if (i == 0 && afterLetter) || (i > 0 && IsAsciiLetter(s[i - 1])) then ToLower(s[i])
      else ToUpper(s[i])
    decreases |s|
  {
    var next := IsAsciiLetter(s[0]);
    if |s| > 1 {
      TitleFromAt(s[1..], next, if i > 0 then i - 1 else 0);
    } else {
      assert TitleFrom(s[1..], next) == [];
    }
  }

  /** TitleCase agrees with the character-wise rule at every position. */
  lemma TitleCaseAt(s: string, i: nat)
    requires i < |s|
    ensures |TitleCase(s)| == |s|
    ensures TitleCase(s)[i] == TitleCharAt(s, i)
  {
    TitleFromAt(s, false, i);
  }

  /** Applying title() twice is the same as applying it once. */
  lemma TitleCaseIdempotent(s: string)
    ensures TitleCase(TitleCase(s)) == TitleCase(s)
  {
    var t := TitleCase(s);
    if s == [] {
    } else {
      TitleCaseAt(s, 0);
      assert |t| == |s|;
      TitleCaseAt(t, 0);
      forall i | 0 <= i < |t| ensures TitleCase(t)[i] == t[i] {
        TitleCaseAt(s, i);
        TitleCaseAt(t, i);
        if i > 0 { TitleCaseAt(s, i - 1); }
      }
    }
  }

  // ---- str(n) for n >= 0 ----

  function DigitChar(d: nat): (c: char)
    requires d < 10
    ensures '0' <= c <= '9' && c as int - '0' as int == d
  {
    ('0' as int + d) as char
  }

  predicate IsDigits(s: string)
  {
    forall i :: 0 <= i < |s| ==> '0' <= s[i] <= '9'
  }

  /** str(n): decimal digits, most significant first, with no leading zero. */
  function NatToString(n: nat): (r: string)
    ensures |r| >= 1 && IsDigits(r)
    ensures r[0] == '0' ==> n == 0
    decreases n
  {
    if n < 10 then [DigitChar(n)] else NatToString(n / 10) + [DigitChar(n % 10)]
  }

  /** int(s) for a string of decimal digits. */
  function DecimalValue(s: string): nat
    requires IsDigits(s)
  {
    if s == [] then 0
    else DecimalValue(s[..|s| - 1]) * 10 + (s[|s| - 1] as int - '0' as int)
  }

  lemma {:induction false} DecimalRoundTrip(n: nat)
    ensures DecimalValue(NatToString(n)) == n
    decreases n
  {
    if n >= 10 {
      var r := NatToString(n);
      assert r[..|r| - 1] == NatToString(n / 10);
      DecimalRoundTrip(n / 10);
    }
  }

  /** Different numbers are written differently. */
  lemma NatToStringInjective(m: nat, n: nat)
    requires NatToString(m) == NatToString(n)
    ensures m == n
  {
    DecimalRoundTrip(m);
    DecimalRoundTrip(n);
  }
}
