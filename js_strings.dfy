/**
 * The ECMAScript string built-ins that the harvester applies to station
 * records, page attributes and URLs: `trim`, `split(sep)[0]`, `indexOf` /
 * `includes`, `startsWith`, `replace` with a string pattern and
 * `toLowerCase` (on ASCII letters).
 */
module JsStrings {
  import opened Wrappers

  /** The WhiteSpace and LineTerminator code points of ECMAScript, which `trim` removes. */
  predicate IsJsWhitespace(c: char) {
    || c == '\t' || c == '\n' || c == '\U{000B}' || c == '\U{000C}' || c == '\r'
    || c == ' ' || c == '\U{00A0}' || c == '\U{1680}' || ('\U{2000}' <= c <= '\U{200A}')
    || c == '\U{2028}' || c == '\U{2029}' || c == '\U{202F}' || c == '\U{205F}'
    || c == '\U{3000}' || c == '\U{FEFF}'
  }

  predicate Blank(s: string) {
    forall i :: 0 <= i < |s| ==> IsJsWhitespace(s[i])
  }

  /** Drops the leading whitespace: what is left is a suffix of `s` that does not start with whitespace. */
  function TrimStart(s: string): (r: string)
    ensures |r| <= |s| && r == s[|s| - |r|..]
    ensures forall i :: 0 <= i < |s| - |r| ==> IsJsWhitespace(s[i])
    ensures r == [] || !IsJsWhitespace(r[0])
  {
    if |s| > 0 && IsJsWhitespace(s[0]) then TrimStart(s[1..]) else s
  }

  /** Drops the trailing whitespace: what is left is a prefix of `s` that does not end with whitespace. */
  function TrimEnd(s: string): (r: string)
    ensures |r| <= |s| && r == s[..|r|]
    ensures forall i :: |r| <= i < |s| ==> IsJsWhitespace(s[i])
    ensures r == [] || !IsJsWhitespace(r[|r| - 1])
  {
    if |s| > 0 && IsJsWhitespace(s[|s| - 1]) then TrimEnd(s[..|s| - 1]) else s
  }

  /** String.prototype.trim: neither end of the result is whitespace (see `TrimIsSlice` for what is kept). */
  function Trim(s: string): (r: string)
    ensures r == [] || (!IsJsWhitespace(r[0]) && !IsJsWhitespace(r[|r| - 1]))
  {
    TrimStartsClean(s);
    TrimEnd(TrimStart(s))
  }

  lemma TrimStartsClean(s: string)
    ensures var r := TrimEnd(TrimStart(s)); r == [] || !IsJsWhitespace(r[0])
  {
    var u := TrimStart(s);
    if TrimEnd(u) != [] {
      assert TrimEnd(u)[0] == u[0];
    }
  }

  /** Trimming keeps one slice of `s` and drops only the whitespace before and after it. */
  lemma TrimIsSlice(s: string)
    ensures exists a :: TrimmedAt(s, Trim(s), a)
  {
    var u := TrimStart(s);
    MiddleSlice(s, u, TrimEnd(u));
    assert TrimmedAt(s, Trim(s), |s| - |u|);
  }

  /** `r` is the slice of `s` at offset `a`, with only whitespace before and after it. */
  predicate TrimmedAt(s: string, r: string, a: int) {
    && 0 <= a <= |s| - |r| && r == s[a..a + |r|]
    && (forall i :: 0 <= i < a ==> IsJsWhitespace(s[i]))
    && (forall i :: a + |r| <= i < |s| ==> IsJsWhitespace(s[i]))
  }

  /** A prefix `r` of a suffix `u` of `s` is a slice of `s`, and what follows `r` in `u` follows it in `s`. */
  lemma MiddleSlice(s: string, u: string, r: string)
    requires |u| <= |s| && u == s[|s| - |u|..]
    requires forall i :: 0 <= i < |s| - |u| ==> IsJsWhitespace(s[i])
    requires |r| <= |u| && r == u[..|r|]
    requires forall i :: |r| <= i < |u| ==> IsJsWhitespace(u[i])
    ensures TrimmedAt(s, r, |s| - |u|)
  {
    var a := |s| - |u|;
    forall i | 0 <= i < |r| ensures r[i] == s[a + i] {
      assert r[i] == u[i];
    }
    forall i | a + |r| <= i < |s| ensures IsJsWhitespace(s[i]) {
      assert s[i] == u[i - a];
    }
  }

  /** A trimmed name is empty exactly when the name is made of whitespace only. */
  lemma TrimEmptyIffBlank(s: string)
    ensures Trim(s) == "" <==> Blank(s)
  {
    var t := TrimStart(s);
    if t != [] {
      assert !IsJsWhitespace(s[|s| - |t|]);
      assert !IsJsWhitespace(t[0]);
    }
  }

  /** Trimming only removes characters. */
  lemma TrimKeepsOut(s: string, c: char)
    requires c !in s
    ensures c !in Trim(s)
  {
    var u := TrimStart(s);
    var t := Trim(s);
    forall i | 0 <= i < |t| ensures t[i] != c {
      assert t[i] == u[i] == s[|s| - |u| + i];
      assert s[|s| - |u| + i] in s;
    }
  }

  /** Trimming twice is trimming once. */
  lemma TrimIdempotent(s: string)
    ensures Trim(Trim(s)) == Trim(s)
  {
    var t := Trim(s);
    var u := TrimStart(s);
    if t != [] {
      assert t[0] == u[0];
      assert !IsJsWhitespace(t[0]);
      assert TrimStart(t) == t;
    } else {
      assert TrimStart(t) == t;
    }
  }

  /** `s.split(sep)[0]` for a one-character separator: the text before the first `sep`, or all of `s`. */
  function BeforeFirst(s: string, sep: char): (r: string)
    ensures |r| <= |s| && r == s[..|r|]
    ensures sep !in r
    ensures |r| < |s| ==> s[|r|] == sep
  {
    if s == [] || s[0] == sep then [] else [s[0]] + BeforeFirst(s[1..], sep)
  }

  /** `s` holds `pat` at position `i`. */
  predicate MatchesAt(s: string, pat: string, i: nat) {
    i + |pat| <= |s| && s[i..i + |pat|] == pat
  }

  /** String.prototype.indexOf with a string argument: the first position of `pat`, if any. */
  function IndexOf(s: string, pat: string): (r: Option<nat>)
    ensures r.Some? ==> MatchesAt(s, pat, r.value)
    ensures r.Some? ==> forall i: nat :: i < r.value ==> !MatchesAt(s, pat, i)
    ensures r.None? ==> forall i: nat :: !MatchesAt(s, pat, i)
    decreases |s|
  {
    if |s| < |pat| then None
    else if s[..|pat|] == pat then Some(0)
    else
      assert !MatchesAt(s, pat, 0) by { assert s[0..|pat|] == s[..|pat|]; }
      ShiftedMatches(s, pat);
      match IndexOf(s[1..], pat)
      case None => None
      case Some(i) => Some(i + 1)
  }

  lemma ShiftedMatch(s: string, pat: string, i: nat)
    requires |s| > 0
    ensures MatchesAt(s[1..], pat, i) <==> MatchesAt(s, pat, i + 1)
  {
    if i + 1 + |pat| <= |s| {
      assert s[1..][i..i + |pat|] == s[i + 1..i + 1 + |pat|];
    }
  }

  /** A match in the tail of `s` is a match in `s` one position later. */
  lemma ShiftedMatches(s: string, pat: string)
    requires |s| > 0
    ensures forall i: nat :: 1 <= i ==> (MatchesAt(s, pat, i) <==> MatchesAt(s[1..], pat, i - 1))
  {
    forall i: nat | 1 <= i ensures MatchesAt(s, pat, i) <==> MatchesAt(s[1..], pat, i - 1) {
      ShiftedMatch(s, pat, i - 1);
    }
  }

  /** String.prototype.includes */
  predicate Includes(s: string, pat: string) {
    IndexOf(s, pat).Some?
  }

  /** `includes` holds exactly when the pattern occurs at some position. */
  lemma IncludesIff(s: string, pat: string)
    ensures Includes(s, pat) <==> exists i: nat :: MatchesAt(s, pat, i)
  {
    match IndexOf(s, pat)
    case None =>
    case Some(i) => assert MatchesAt(s, pat, i);
  }

  /** String.prototype.startsWith */
  predicate StartsWith(s: string, prefix: string) {
    |prefix| <= |s| && s[..|prefix|] == prefix
  }

  /** `startsWith` holds exactly when the prefix occurs at position 0, so it implies `includes`. */
  lemma StartsWithIff(s: string, prefix: string)
    ensures StartsWith(s, prefix) <==> MatchesAt(s, prefix, 0)
    ensures StartsWith(s, prefix) ==> Includes(s, prefix)
  {
    if |prefix| <= |s| {
      assert s[0..|prefix|] == s[..|prefix|];
    }
    IncludesIff(s, prefix);
  }

  lemma StartsWithConcat(a: string, b: string)
    ensures StartsWith(a + b, a)
  {
    assert (a + b)[..|a|] == a;
  }

  /** `pat` occurs at `i` and nowhere before it. */
  predicate FirstMatch(s: string, pat: string, i: nat) {
    MatchesAt(s, pat, i) && forall j: nat :: j < i ==> !MatchesAt(s, pat, j)
  }

  /**
   * String.prototype.replace with a string pattern (no `$` in `rep`): `s`
   * unchanged when `pat` occurs nowhere, otherwise only the first
   * occurrence replaced by `rep`.
   */
  function ReplaceFirst(s: string, pat: string, rep: string): (r: string)
    ensures (forall i: nat :: !MatchesAt(s, pat, i)) ==> r == s
    ensures forall i: nat :: FirstMatch(s, pat, i) ==> r == s[..i] + rep + s[i + |pat|..]
  {
    match IndexOf(s, pat)
    case None => s
    case Some(i) => s[..i] + rep + s[i + |pat|..]
  }

  /** When `s` starts with `pat`, replacing it swaps exactly that prefix. */
  lemma ReplaceLeadingPrefix(s: string, pat: string, rep: string)
    requires StartsWith(s, pat)
    ensures ReplaceFirst(s, pat, rep) == rep + s[|pat|..]
  {
    assert FirstMatch(s, pat, 0);
    assert s[..0] == [];
  }

  /** The lower-case form of one character: 'A'..'Z' become 'a'..'z', everything else is kept. */
  function LowerAscii(c: char): (r: char)
    ensures !('A' <= r <= 'Z')
    ensures 'A' <= c <= 'Z' ==> r as int == c as int + 32
    ensures !('A' <= c <= 'Z') ==> r == c
  {
    if 'A' <= c <= 'Z' then (c as int + 32) as char else c
  }

  /** String.prototype.toLowerCase, restricted to the ASCII letters. */
  function ToLowerAscii(s: string): (r: string)
    ensures |r| == |s|
    ensures forall i :: 0 <= i < |s| ==> r[i] == LowerAscii(s[i])
  {
    seq(|s|, i requires 0 <= i < |s| => LowerAscii(s[i]))
  }

  /** Lower-casing twice is lower-casing once. */
  lemma ToLowerAsciiIdempotent(s: string)
    ensures ToLowerAscii(ToLowerAscii(s)) == ToLowerAscii(s)
  {
    var t := ToLowerAscii(s);
    var u := ToLowerAscii(t);
    forall i | 0 <= i < |s| ensures u[i] == t[i] {
      assert t[i] == LowerAscii(s[i]);
      assert u[i] == LowerAscii(t[i]);
    }
  }
}
