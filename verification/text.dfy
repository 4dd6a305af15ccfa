/**
 * The string operations the views rely on: `trim`, `toLowerCase`, `includes(" ")`,
 * the institutional e-mail pattern `^[^\s@]+@unal\.edu\.co$`, and the ordering used
 * to sort date keys.
 */
module Text {

  /** Characters matched by `\s` in a JavaScript regular expression; `String.prototype.trim` strips the same set. */
  predicate IsSpace(c: char) {
    || c == ' ' || c == '\t' || c == '\n' || c == '\U{B}' || c == '\U{C}' || c == '\r'
    || c == '\U{A0}' || c == '\U{1680}' || ('\U{2000}' <= c <= '\U{200A}')
    || c == '\U{2028}' || c == '\U{2029}' || c == '\U{202F}' || c == '\U{205F}'
    || c == '\U{3000}' || c == '\U{FEFF}'
  }

  predicate AllSpace(s: string) {
    forall i :: 0 <= i < |s| ==> IsSpace(s[i])
  }

  /** `s.trimStart()`: the suffix of `s` left after its leading whitespace. */
  function TrimStart(s: string): (r: string)
    ensures |r| <= |s| && r == s[|s| - |r|..]
    ensures AllSpace(s[..|s| - |r|])
    ensures r == [] || !IsSpace(r[0])
  {
    if |s| > 0 && IsSpace(s[0]) then
      var r := TrimStart(s[1..]);
      assert s[..|s| - |r|] == [s[0]] + s[1..][..|s| - 1 - |r|];
      r
    else
      s
  }

  /** `s.trimEnd()`: the prefix of `s` left before its trailing whitespace. */
  function TrimEnd(s: string): (r: string)
    ensures |r| <= |s| && r == s[..|r|]
    ensures AllSpace(s[|r|..])
    ensures r == [] || !IsSpace(r[|r| - 1])
  {
    if |s| > 0 && IsSpace(s[|s| - 1]) then
      var r := TrimEnd(s[..|s| - 1]);
      assert s[|r|..] == s[..|s| - 1][|r|..] + [s[|s| - 1]];
      r
    else
      s
  }

  /** `s.trim()`. */
  function Trim(s: string): (r: string)
    ensures |r| <= |s|
    ensures r == [] || (!IsSpace(r[0]) && !IsSpace(r[|r| - 1]))
    ensures r == [] <==> AllSpace(s)
  {
    var t := TrimStart(s);
    var r := TrimEnd(t);
    assert r == [] ==> s == s[..|s| - |t|] + t[|r|..];
    assert r != [] ==> r[0] == t[0];
    r
  }

  /** A string that neither starts nor ends with whitespace is its own trim. */
  lemma TrimUnchanged(s: string)
    requires s == [] || (!IsSpace(s[0]) && !IsSpace(s[|s| - 1]))
    ensures Trim(s) == s
  {
    assert TrimStart(s) == s;
    assert TrimEnd(s) == s;
  }

  /** Trimming a trimmed string changes nothing. */
  lemma TrimIdempotent(s: string)
    ensures Trim(Trim(s)) == Trim(s)
  {
    var r := Trim(s);
    if r != [] {
      assert TrimStart(r) == r;
      assert TrimEnd(r) == r;
    }
  }

  /** A character beyond the Basic Multilingual Plane, which UTF-16 stores as a surrogate pair. */
  predicate Astral(c: char) {
    c >= '\U{10000}'
  }

  /**
   * `s.length`: the number of UTF-16 code units, two for each astral character and one
   * for every other character.
   */
  function Utf16Length(s: string): (n: nat)
    ensures |s| <= n <= 2 * |s|
    ensures n == |s| <==> forall i :: 0 <= i < |s| ==> !Astral(s[i])
    ensures n == 2 * |s| <==> forall i :: 0 <= i < |s| ==> Astral(s[i])
  {
    if s == [] then 0
    else
      var n := (if Astral(s[0]) then 2 else 1) + Utf16Length(s[1..]);
      assert forall i :: 1 <= i < |s| ==> s[i] == s[1..][i - 1];
      n
  }

  /** The code units of a concatenation are those of its parts. */
  lemma {:induction false} Utf16LengthAppend(a: string, b: string)
    ensures Utf16Length(a + b) == Utf16Length(a) + Utf16Length(b)
  {
    if a != [] {
      assert (a + b)[1..] == a[1..] + b;
      Utf16LengthAppend(a[1..], b);
    } else {
      assert a + b == b;
    }
  }

  /** `c.toLowerCase()` on the ASCII letters; every other character is kept. */
  function LowerChar(c: char): char {
    if 'A' <= c <= 'Z' then (c as int + 32) as char else c
  }

  /** `s.toLowerCase()`, on ASCII letters. */
  function ToLower(s: string): (r: string)
    ensures |r| == |s|
    ensures forall i :: 0 <= i < |s| ==> r[i] == LowerChar(s[i])
  {
    seq(|s|, i requires 0 <= i < |s| => LowerChar(s[i]))
  }

  predicate IsLower(s: string) {
    forall i :: 0 <= i < |s| ==> !('A' <= s[i] <= 'Z')
  }

  /** Lower-casing leaves no upper-case letter, so doing it twice is doing it once. */
  lemma ToLowerIdempotent(s: string)
    ensures IsLower(ToLower(s))
    ensures ToLower(ToLower(s)) == ToLower(s)
  {
  }

  /** `a.toLowerCase() === b.toLowerCase()`. */
  predicate EqualsIgnoreCase(a: string, b: string) {
    ToLower(a) == ToLower(b)
  }

  lemma {:induction false} TrimStartLower(s: string)
    ensures TrimStart(ToLower(s)) == ToLower(TrimStart(s))
  {
    if |s| > 0 && IsSpace(s[0]) {
      assert ToLower(s)[1..] == ToLower(s[1..]);
      TrimStartLower(s[1..]);
    }
  }

  lemma {:induction false} TrimEndLower(s: string)
    ensures TrimEnd(ToLower(s)) == ToLower(TrimEnd(s))
  {
    if |s| > 0 && IsSpace(s[|s| - 1]) {
      assert ToLower(s)[..|s| - 1] == ToLower(s[..|s| - 1]);
      TrimEndLower(s[..|s| - 1]);
    }
  }

  /** Whether one lower-cases before or after trimming makes no difference. */
  lemma TrimLowerCommute(s: string)
    ensures Trim(ToLower(s)) == ToLower(Trim(s))
  {
    TrimStartLower(s);
    TrimEndLower(TrimStart(s));
  }

  /** An ASCII decimal digit. */
  predicate IsDigit(c: char) {
    '0' <= c <= '9'
  }

  lemma DigitNotSpace(c: char)
    requires IsDigit(c)
    ensures !IsSpace(c)
  {
  }

  /** `s.includes(" ")`: only the plain space counts, not other whitespace. */
  predicate HasSpaceChar(s: string) {
    ' ' in s
  }

  const InstitutionalDomain: string := "@unal.edu.co"

  /**
   * The pattern `^[^\s@]+@unal\.edu\.co$`: a non-empty local part without whitespace
   * or `@`, then exactly the domain, matched case-sensitively.
   */
  predicate IsInstitutionalEmail(s: string) {
    var n := |s| - |InstitutionalDomain|;
    && n > 0
    && s[n..] == InstitutionalDomain
    && forall i :: 0 <= i < n ==> !IsSpace(s[i]) && s[i] != '@'
  }

  /** An address the pattern accepts contains no whitespace at all, the domain included. */
  lemma InstitutionalHasNoSpace(s: string)
    requires IsInstitutionalEmail(s)
    ensures forall i :: 0 <= i < |s| ==> !IsSpace(s[i])
    ensures !HasSpaceChar(s)
    ensures Trim(s) == s
  {
    var n := |s| - |InstitutionalDomain|;
    forall i | n <= i < |s|
      ensures !IsSpace(s[i])
    {
      assert s[i] == s[n..][i - n];
    }
    assert TrimStart(s) == s;
    assert TrimEnd(s) == s;
  }

  /** An accepted address is not blank and is its own trim. */
  lemma InstitutionalTrimmed(s: string)
    requires IsInstitutionalEmail(s)
    ensures s != [] && Trim(s) == s
  {
    InstitutionalHasNoSpace(s);
  }

  /** Lower-casing an accepted address keeps it accepted: the domain is already lower case. */
  lemma LowerKeepsInstitutional(s: string)
    requires IsInstitutionalEmail(s)
    ensures IsInstitutionalEmail(ToLower(s))
  {
    var n := |s| - |InstitutionalDomain|;
    var l := ToLower(s);
    assert l[n..] == ToLower(s[n..]);
  }

  /** The converse fails: an upper-case domain is refused as typed ... */
  lemma UpperDomainRefused()
    ensures !IsInstitutionalEmail("ana@UNAL.EDU.CO")
  {
    var s := "ana@UNAL.EDU.CO";
    assert s[3..][1] == 'U';
  }

  /** ... and accepted once lower-cased. */
  lemma UpperDomainLowered()
    ensures ToLower("ana@UNAL.EDU.CO") == "ana@unal.edu.co"
    ensures IsInstitutionalEmail("ana@unal.edu.co")
  {
    LowerExample();
    var l := "ana@unal.edu.co";
    assert l[3..] == InstitutionalDomain;
  }

  /** An address refused as typed and accepted once lower-cased, with nothing to trim. */
  lemma UpperDomainExample() returns (s: string)
    ensures Trim(s) == s
    ensures !IsInstitutionalEmail(s) && IsInstitutionalEmail(ToLower(s))
  {
    s := "ana@UNAL.EDU.CO";
    TrimUnchanged(s);
    UpperDomainRefused();
    UpperDomainLowered();
  }

  /** A one-letter password, with nothing to trim and no space. */
  lemma PlainPassword() returns (p: string)
    ensures Trim(p) == p && p != [] && !HasSpaceChar(p)
  {
    p := "x";
    TrimUnchanged(p);
  }

  lemma LowerExample()
    ensures ToLower("ana@UNAL.EDU.CO") == "ana@unal.edu.co"
  {
    var s, l := "ana@UNAL.EDU.CO", "ana@unal.edu.co";
    forall i | 0 <= i < |s|
      ensures LowerChar(s[i]) == l[i]
    {
    }
  }

  /** Strict code-point lexicographic order, the order `localeCompare` gives on ASCII date keys. */
  predicate Precedes(a: string, b: string) {
    if |a| == 0 then |b| > 0
    else if |b| == 0 then false
    else if a[0] != b[0] then a[0] < b[0]
    else Precedes(a[1..], b[1..])
  }

  /** Any two different strings are ordered one way, and never both ways. */
  lemma {:induction false} PrecedesTotal(a: string, b: string)
    ensures a != b <==> (Precedes(a, b) || Precedes(b, a))
    ensures !(Precedes(a, b) && Precedes(b, a))
  {
    if |a| > 0 && |b| > 0 && a[0] == b[0] {
      PrecedesTotal(a[1..], b[1..]);
      assert a == [a[0]] + a[1..];
      assert b == [b[0]] + b[1..];
    }
  }

  /** The order is transitive. */
  lemma {:induction false} PrecedesTransitive(a: string, b: string, c: string)
    requires Precedes(a, b) && Precedes(b, c)
    ensures Precedes(a, c)
  {
    if |a| > 0 && a[0] == b[0] && b[0] == c[0] {
      PrecedesTransitive(a[1..], b[1..], c[1..]);
    }
  }
}
