/** Character-level helpers shared by the store and the client: ASCII case
    folding and case-insensitive substring search (the store's `contains`
    with `mode: 'insensitive'`), and the whitespace trimming that the
    browser's `String.prototype.trim` performs. */
module Text {

  /** Lower-cases the ASCII letters A-Z; every other character is kept. */
  function Lower(c: char): char {
    if 'A' <= c <= 'Z' then (c as int + 32) as char else c
  }

  /** Lower-cases every character of `s` (ASCII letters only). */
  function Fold(s: string): string {
    seq(|s|, i requires 0 <= i < |s| => Lower(s[i]))
  }

  predicate IsPrefix(f: string, s: string) {
    |f| <= |s| && s[..|f|] == f
  }

  /** `f` occurs somewhere in `s` as a contiguous run of characters. */
  predicate IsSubstring(f: string, s: string)
    decreases |s|
  {
    IsPrefix(f, s) || (|s| > 0 && IsSubstring(f, s[1..]))
  }

  /** The title filter of the store: `fragment` occurs in `s`, ignoring ASCII case. */
  predicate ContainsIgnoringCase(s: string, fragment: string) {
    IsSubstring(Fold(fragment), Fold(s))
  }

  /** `f` is the slice of `s` that starts at `i`. */
  predicate OccursAt(f: string, s: string, i: nat) {
    i + |f| <= |s| && s[i..i + |f|] == f
  }

  /** `f` occurs in `s` exactly when it is the slice of `s` at some position. */
  lemma {:induction false} IsSubstringAt(f: string, s: string)
    ensures IsSubstring(f, s) <==> exists i: nat :: OccursAt(f, s, i)
  {
    if IsSubstring(f, s) {
      var i := SubstringPosition(f, s);
      assert OccursAt(f, s, i);
    }
    if exists i: nat :: OccursAt(f, s, i) {
      var i: nat :| OccursAt(f, s, i);
      PositionIsSubstring(f, s, i);
    }
  }

  /** A position at which an occurring `f` sits in `s`. */
  lemma {:induction false} SubstringPosition(f: string, s: string) returns (i: nat)
    requires IsSubstring(f, s)
    ensures i <= |s| - |f| && s[i..i + |f|] == f
    decreases |s|
  {
    if IsPrefix(f, s) {
      i := 0;
    } else {
      var j := SubstringPosition(f, s[1..]);
      assert s[1..][j..j + |f|] == s[j + 1..j + 1 + |f|];
      i := j + 1;
    }
  }

  /** The slice of `s` at a position is a substring of `s`. */
  lemma {:induction false} PositionIsSubstring(f: string, s: string, i: nat)
    requires i <= |s| - |f| && s[i..i + |f|] == f
    ensures IsSubstring(f, s)
    decreases i
  {
    if i > 0 {
      assert s[1..][i - 1..i - 1 + |f|] == s[i..i + |f|];
      PositionIsSubstring(f, s[1..], i - 1);
    }
  }

  /** The title filter holds exactly when the folded fragment is a slice of
      the folded title at some position. */
  lemma {:induction false} ContainsIgnoringCaseAt(s: string, fragment: string)
    ensures ContainsIgnoringCase(s, fragment) <==>
      exists i: nat :: OccursAt(Fold(fragment), Fold(s), i)
  {
    IsSubstringAt(Fold(fragment), Fold(s));
  }

  lemma {:induction false} FoldIdempotent(s: string)
    ensures Fold(Fold(s)) == Fold(s)
  {
    assert forall i :: 0 <= i < |s| ==> Fold(Fold(s))[i] == Fold(s)[i];
  }

  /** The empty fragment occurs in every title. */
  lemma {:induction false} EmptyFragmentMatchesAll(s: string)
    ensures ContainsIgnoringCase(s, "")
  {
    assert Fold("") == [];
    assert Fold(s)[..0] == [];
  }

  /** Case does not matter on either side of the comparison. */
  lemma {:induction false} CaseIrrelevant(s: string, fragment: string)
    ensures ContainsIgnoringCase(s, fragment) == ContainsIgnoringCase(Fold(s), Fold(fragment))
  {
    FoldIdempotent(s);
    FoldIdempotent(fragment);
  }

  /** Whitespace and line terminators as the ECMAScript `trim` removes them:
      tab, vertical tab, form feed, space, no-break space, the byte order mark,
      the space separators of Unicode category Zs, and the four line terminators. */
  predicate IsWhitespace(c: char) {
    || c == '\t' || c == '\n' || c == '\U{B}' || c == '\U{C}' || c == '\r'
    || c == ' ' || c == '\U{A0}' || c == '\U{1680}'
    || ('\U{2000}' <= c <= '\U{200A}')
    || c == '\U{2028}' || c == '\U{2029}' || c == '\U{202F}' || c == '\U{205F}'
    || c == '\U{3000}' || c == '\U{FEFF}'
  }

  /** True when every character of `s` is whitespace (so `s.trim()` is falsy). */
  predicate IsBlank(s: string) {
    forall i :: 0 <= i < |s| ==> IsWhitespace(s[i])
  }

  /** `s` without its leading whitespace. */
  function TrimStart(s: string): (r: string)
    ensures |r| <= |s| && r == s[|s| - |r|..]
    ensures r == [] || !IsWhitespace(r[0])
    ensures IsBlank(s[..|s| - |r|])
  {
    if s != [] && IsWhitespace(s[0]) then TrimStart(s[1..]) else s
  }

  /** `s` without its trailing whitespace. */
  function TrimEnd(s: string): (r: string)
    ensures |r| <= |s| && r == s[..|r|]
    ensures r == [] || !IsWhitespace(r[|r| - 1])
    ensures IsBlank(s[|r|..])
  {
    if s != [] && IsWhitespace(s[|s| - 1]) then TrimEnd(s[..|s| - 1]) else s
  }

  /** `r` is the run of `s` that starts at `i`, with only whitespace
      before it and after it. */
  predicate TrimmedAt(s: string, r: string, i: nat) {
    i + |r| <= |s| && r == s[i..i + |r|] && IsBlank(s[..i]) && IsBlank(s[i + |r|..])
  }

  /** `String.prototype.trim`: the run of `s` left between a whitespace
      prefix and a whitespace suffix, empty exactly when `s` is blank and
      otherwise starting and ending with a non-whitespace character. */
  function Trim(s: string): (r: string)
    ensures TrimmedAt(s, r, |s| - |TrimStart(s)|)
    ensures r == [] <==> IsBlank(s)
    ensures r != [] ==> !IsWhitespace(r[0]) && !IsWhitespace(r[|r| - 1])
  {
    TrimBlankCases(s);
    TrimPlacement(s);
    TrimEnd(TrimStart(s))
  }

  /** Where the trimmed string sits in `s`: after the prefix `TrimStart`
      drops and before the suffix `TrimEnd` drops. */
  lemma {:induction false} TrimPlacement(s: string)
    ensures TrimmedAt(s, TrimEnd(TrimStart(s)), |s| - |TrimStart(s)|)
  {
    var t := TrimStart(s);
    TrimmedWithin(s, t, TrimEnd(t), |s| - |t|);
  }

  /** A run cut from the front of a suffix of `s` sits in `s` at the
      suffix's start. */
  lemma {:induction false} TrimmedWithin(s: string, t: string, r: string, i: nat)
    requires i <= |s| && t == s[i..] && |r| <= |t| && r == t[..|r|]
    requires IsBlank(s[..i]) && IsBlank(t[|r|..])
    ensures TrimmedAt(s, r, i)
  {
    assert s[i..i + |r|] == t[..|r|];
    assert s[i + |r|..] == t[|r|..];
  }

  lemma {:induction false} TrimBlankCases(s: string)
    ensures TrimEnd(TrimStart(s)) == [] <==> IsBlank(s)
    ensures TrimEnd(TrimStart(s)) != [] ==> !IsWhitespace(TrimEnd(TrimStart(s))[0])
  {
    var t := TrimStart(s);
    var r := TrimEnd(t);
    var k := |s| - |t|;
    assert IsBlank(s[..k]);
    if r == [] {
      assert IsBlank(t[|r|..]) && t[|r|..] == t;
      forall i | 0 <= i < |s| ensures IsWhitespace(s[i]) {
        if i < k {
          assert s[i] == s[..k][i];
        } else {
          assert s[i] == t[i - k];
        }
      }
    } else {
      assert r[0] == t[0] && t[0] == s[k];
    }
  }

  lemma {:induction false} TrimStartKeeps(s: string)
    requires s == [] || !IsWhitespace(s[0])
    ensures TrimStart(s) == s
  {
  }

  lemma {:induction false} TrimEndKeeps(s: string)
    requires s == [] || !IsWhitespace(s[|s| - 1])
    ensures TrimEnd(s) == s
  {
  }

  /** Trimming twice is trimming once. */
  lemma {:induction false} TrimIdempotent(s: string)
    ensures Trim(Trim(s)) == Trim(s)
  {
    var r := Trim(s);
    assert r == [] || (!IsWhitespace(r[0]) && !IsWhitespace(r[|r| - 1]));
    TrimStartKeeps(r);
    TrimEndKeeps(r);
    calc {
      Trim(r);
      TrimEnd(TrimStart(r));
      TrimEnd(r);
      r;
    }
  }
}
