/**
 * Column-label normalisation of the analysis script: strip surrounding
 * whitespace, lowercase, turn spaces into underscores, then drop every
 * character outside [a-z0-9_].  Also the substring test used to guess the
 * date column.
 */
module Labels {

  /** Python's `str.isspace`: the code points that `str.strip()` removes. */
  predicate IsSpace(c: char) {
    || c == ' '
    || '\t' <= c <= '\r'
    || '\U{1C}' <= c <= '\U{1F}'
    || c == '\U{85}' || c == '\U{A0}' || c == '\U{1680}'
    || '\U{2000}' <= c <= '\U{200A}'
    || c == '\U{2028}' || c == '\U{2029}' || c == '\U{202F}'
    || c == '\U{205F}' || c == '\U{3000}'
  }

  predicate IsUpper(c: char) { 'A' <= c <= 'Z' }

  /** The characters a normalised label may contain. */
  predicate IsLabelChar(c: char) { 'a' <= c <= 'z' || '0' <= c <= '9' || c == '_' }

  /** A label that normalisation produces, and leaves alone. */
  predicate IsCanonical(s: string) { forall k :: 0 <= k < |s| ==> IsLabelChar(s[k]) }

  /** `s.lstrip()`: the longest suffix of `s` that does not start with whitespace. */
  function StripLeft(s: string): (r: string)
    ensures |r| <= |s| && r == s[|s| - |r|..]
    ensures forall k :: 0 <= k < |s| - |r| ==> IsSpace(s[k])
    ensures r != [] ==> !IsSpace(r[0])
  {
    if s != [] && IsSpace(s[0]) then StripLeft(s[1..]) else s
  }

  /** `s.rstrip()`: the longest prefix of `s` that does not end with whitespace. */
  function StripRight(s: string): (r: string)
    ensures |r| <= |s| && r == s[..|r|]
    ensures forall k :: |r| <= k < |s| ==> IsSpace(s[k])
    ensures r != [] ==> !IsSpace(r[|r| - 1])
  {
    if s != [] && IsSpace(s[|s| - 1]) then StripRight(s[..|s| - 1]) else s
  }

  /** `s.strip()`. */
  function Strip(s: string): (r: string)
    ensures |r| <= |s|
    ensures r != [] ==> !IsSpace(r[0]) && !IsSpace(r[|r| - 1])
    ensures r == [] <==> forall k :: 0 <= k < |s| ==> IsSpace(s[k])
    ensures s != [] && !IsSpace(s[0]) && !IsSpace(s[|s| - 1]) ==> r == s
    ensures exists i :: Middle(s, r, i)
  {
    var l := StripLeft(s);
    var r := StripRight(l);
    var i := |s| - |l|;
    assert r != [] ==> r[0] == l[0];
    assert r == [] <==> l == [];
    assert l != [] ==> !IsSpace(s[|s| - |l|]);
    MiddleOfStrip(s, l, r);
    r
  }

  /** `r` is the window of `s` from `i` on, and everything around it is whitespace. */
  predicate Middle(s: string, r: string, i: nat) {
    && i + |r| <= |s| && r == s[i..i + |r|]
    && (forall k :: 0 <= k < i ==> IsSpace(s[k]))
    && (forall k :: i + |r| <= k < |s| ==> IsSpace(s[k]))
  }

  /** A window of `s` is kept by `StripLeft` and then by `StripRight`. */
  lemma MiddleOfStrip(s: string, l: string, r: string)
    requires |l| <= |s| && l == s[|s| - |l|..] && forall k :: 0 <= k < |s| - |l| ==> IsSpace(s[k])
    requires |r| <= |l| && r == l[..|r|] && forall k :: |r| <= k < |l| ==> IsSpace(l[k])
    ensures Middle(s, r, |s| - |l|)
  {
    var i := |s| - |l|;
    assert forall k :: 0 <= k < |r| ==> r[k] == l[k] == s[i + k];
    assert r == s[i..i + |r|];
    forall k | i + |r| <= k < |s| ensures IsSpace(s[k]) {
      assert s[k] == l[k - i];
    }
  }

  /**
   * The part of Python's `str.lower` that can survive the later filter:
   * ASCII capitals, and the only two non-ASCII characters whose lowercase
   * form contains a character of [a-z0-9_].
   */
  function LowerChar(c: char): (r: string)
    ensures 1 <= |r| <= 2
    ensures forall k :: 0 <= k < |r| ==> !IsUpper(r[k])
    ensures IsUpper(c) ==> |r| == 1 && 'a' <= r[0] <= 'z' && r[0] as int - 'a' as int == c as int - 'A' as int
    ensures !IsUpper(c) && c != '\U{130}' && c != '\U{212A}' ==> r == [c]
    ensures r[0] == ' ' <==> c == ' '
  {
    if IsUpper(c) then [(c as int + 32) as char]
    else if c == '\U{130}' then ['i', '\U{307}']   // LATIN CAPITAL LETTER I WITH DOT ABOVE
    else if c == '\U{212A}' then ['k']             // KELVIN SIGN
    else [c]
  }

  /** `s.lower()`, one character at a time. */
  function Lower(s: string): (r: string)
    ensures |s| <= |r| <= 2 * |s|
    ensures forall k :: 0 <= k < |r| ==> !IsUpper(r[k])
  {
    if s == [] then [] else LowerChar(s[0]) + Lower(s[1..])
  }

  function SpaceToUnderscore(c: char): char {
    if c == ' ' then '_' else c
  }

  /** `s.replace(" ", "_")`. */
  function ReplaceSpaces(s: string): (r: string)
    ensures |r| == |s|
    ensures forall k :: 0 <= k < |s| ==> r[k] == SpaceToUnderscore(s[k])
  {
    if s == [] then [] else [SpaceToUnderscore(s[0])] + ReplaceSpaces(s[1..])
  }

  /** `re.sub(r"[^a-z0-9_]", "", s)`. */
  function KeepLabelChars(s: string): (r: string)
    ensures |r| <= |s|
    ensures IsCanonical(r)
    ensures IsCanonical(s) ==> r == s
    ensures (forall k :: 0 <= k < |s| ==> !IsLabelChar(s[k])) ==> r == []
  {
    if s == [] then []
    else if IsLabelChar(s[0]) then [s[0]] + KeepLabelChars(s[1..])
    else KeepLabelChars(s[1..])
  }

  /** One column label through the four string operations, in the script's order. */
  function Normalise(header: string): (r: string)
    ensures IsCanonical(r)
  {
    KeepLabelChars(ReplaceSpaces(Lower(Strip(header))))
  }

  /** The whole header row. */
  function NormaliseAll(labels: seq<string>): (r: seq<string>)
    ensures |r| == |labels|
    ensures forall i :: 0 <= i < |r| ==> IsCanonical(r[i])
  {
    seq(|labels|, i requires 0 <= i < |labels| => Normalise(labels[i]))
  }

  lemma {:induction false} LowerAppend(a: string, b: string)
    ensures Lower(a + b) == Lower(a) + Lower(b)
  {
    if a != [] {
      calc {
        Lower(a + b);
        LowerChar(a[0]) + Lower((a + b)[1..]);
        { assert (a + b)[1..] == a[1..] + b; LowerAppend(a[1..], b); }
        LowerChar(a[0]) + (Lower(a[1..]) + Lower(b));
      }
    } else {
      assert a + b == b;
    }
  }

  lemma {:induction false} LowerFixesCanonical(s: string)
    requires IsCanonical(s)
    ensures Lower(s) == s
  {
    if s != [] {
      LowerFixesCanonical(s[1..]);
    }
  }

  lemma {:induction false} KeepLabelCharsAppend(a: string, b: string)
    ensures KeepLabelChars(a + b) == KeepLabelChars(a) + KeepLabelChars(b)
  {
    if a != [] {
      assert (a + b)[0] == a[0];
      assert (a + b)[1..] == a[1..] + b;
      KeepLabelCharsAppend(a[1..], b);
    } else {
      assert a + b == b;
    }
  }

  /** A canonical label is a fixed point of normalisation. */
  lemma NormaliseFixesCanonical(t: string)
    requires IsCanonical(t)
    ensures Normalise(t) == t
  {
    if t != [] {
      assert !IsSpace(t[0]) && !IsSpace(t[|t| - 1]);
    }
    LowerFixesCanonical(t);
    ReplaceSpacesFixesCanonical(t);
  }

  lemma ReplaceSpacesFixesCanonical(t: string)
    requires IsCanonical(t)
    ensures ReplaceSpaces(t) == t
  {
    var r := ReplaceSpaces(t);
    forall k | 0 <= k < |t| ensures r[k] == t[k] {
      assert IsLabelChar(t[k]);
      assert SpaceToUnderscore(t[k]) == t[k];
    }
  }

  /** Normalisation is idempotent. */
  lemma NormaliseIdempotent(s: string)
    ensures Normalise(Normalise(s)) == Normalise(s)
  {
    NormaliseFixesCanonical(Normalise(s));
  }

  /** Normalising an already normalised header row changes nothing. */
  lemma NormaliseAllIdempotent(labels: seq<string>)
    ensures NormaliseAll(NormaliseAll(labels)) == NormaliseAll(labels)
  {
    forall i | 0 <= i < |labels|
      ensures Normalise(NormaliseAll(labels)[i]) == NormaliseAll(labels)[i]
    {
      NormaliseIdempotent(labels[i]);
    }
  }

  lemma ReplaceSpacesAppend(a: string, b: string)
    ensures ReplaceSpaces(a + b) == ReplaceSpaces(a) + ReplaceSpaces(b)
  {
    assert forall k :: 0 <= k < |a| ==> (a + b)[k] == a[k];
    assert forall k :: |a| <= k < |a| + |b| ==> (a + b)[k] == b[k - |a|];
  }

  /** What normalisation does after stripping. */
  function Rewrite(s: string): (r: string)
    ensures |r| <= 2 * |s| && IsCanonical(r)
    ensures IsCanonical(s) ==> r == s
  {
    assert IsCanonical(s) ==> KeepLabelChars(ReplaceSpaces(Lower(s))) == s by {
      if IsCanonical(s) {
        LowerFixesCanonical(s);
        ReplaceSpacesFixesCanonical(s);
      }
    }
    KeepLabelChars(ReplaceSpaces(Lower(s)))
  }

  lemma RewriteAppend(a: string, b: string)
    ensures Rewrite(a + b) == Rewrite(a) + Rewrite(b)
  {
    LowerAppend(a, b);
    ReplaceSpacesAppend(Lower(a), Lower(b));
    KeepLabelCharsAppend(ReplaceSpaces(Lower(a)), ReplaceSpaces(Lower(b)));
  }

  /** A label without whitespace at its ends, split around one character. */
  lemma NormaliseAround(a: string, c: char, b: string)
    requires a != [] && !IsSpace(a[0]) && !IsSpace(a[|a| - 1])
    requires b != [] && !IsSpace(b[0]) && !IsSpace(b[|b| - 1])
    ensures Normalise(a + [c] + b) == Normalise(a) + Rewrite([c]) + Normalise(b)
  {
    var s := a + [c] + b;
    assert s[0] == a[0] && s[|s| - 1] == b[|b| - 1];
    assert Strip(s) == s;
    assert Strip(a) == a && Strip(b) == b;
    RewriteAppend(a + [c], b);
    RewriteAppend(a, [c]);
  }

  /**
   * Spaces are turned into underscores before the filter runs, so an
   * interior space survives as `_`.
   */
  lemma NormaliseJoinsWordsWithUnderscore(a: string, b: string)
    requires a != [] && !IsSpace(a[0]) && !IsSpace(a[|a| - 1])
    requires b != [] && !IsSpace(b[0]) && !IsSpace(b[|b| - 1])
    ensures Normalise(a + " " + b) == Normalise(a) + "_" + Normalise(b)
  {
    NormaliseAround(a, ' ', b);
    RewriteSpace();
  }

  lemma RewriteSpace()
    ensures Rewrite(" ") == "_"
  {
    LowerSingle(' ');
    assert ReplaceSpaces(" ") == "_" by {
      assert " "[1..] == [];
    }
    assert "_"[1..] == [];
  }

  /** Lowercasing a one-character label is lowercasing the character. */
  lemma LowerSingle(c: char)
    ensures Lower([c]) == LowerChar(c)
  {
    assert [c][1..] == [];
  }

  /**
   * Whitespace other than a space is not converted: an interior tab,
   * newline or non-breaking space is dropped by the filter.
   */
  lemma NormaliseDropsOtherWhitespace(a: string, c: char, b: string)
    requires a != [] && !IsSpace(a[0]) && !IsSpace(a[|a| - 1])
    requires b != [] && !IsSpace(b[0]) && !IsSpace(b[|b| - 1])
    requires IsSpace(c) && c != ' '
    ensures Normalise(a + [c] + b) == Normalise(a) + Normalise(b)
  {
    NormaliseAround(a, c, b);
    RewriteDropsWhitespace(c);
    assert Normalise(a) + Rewrite([c]) == Normalise(a);
  }

  lemma RewriteDropsWhitespace(c: char)
    requires IsSpace(c) && c != ' '
    ensures Rewrite([c]) == []
  {
    assert !IsUpper(c) && c != '\U{130}' && c != '\U{212A}' && !IsLabelChar(c);
    LowerSingle(c);
    assert ReplaceSpaces([c]) == [c] by {
      assert [c][1..] == [];
    }
  }

  /**
   * Any other character outside `[a-z0-9_]` that lowercasing leaves
   * outside it, such as `-`, `.` or `é`, is deleted by the filter.
   */
  lemma RewriteDropsOther(c: char)
    requires !IsLabelChar(c) && !IsUpper(c) && c != ' ' && c != '\U{130}' && c != '\U{212A}'
    ensures Rewrite([c]) == []
  {
    LowerSingle(c);
    assert ReplaceSpaces([c]) == [c] by {
      assert [c][1..] == [];
    }
  }

  /** An interior character of that kind disappears and the words around it are joined directly. */
  lemma NormaliseDropsOther(a: string, c: char, b: string)
    requires a != [] && !IsSpace(a[0]) && !IsSpace(a[|a| - 1])
    requires b != [] && !IsSpace(b[0]) && !IsSpace(b[|b| - 1])
    requires !IsLabelChar(c) && !IsUpper(c) && c != ' ' && c != '\U{130}' && c != '\U{212A}'
    ensures Normalise(a + [c] + b) == Normalise(a) + Normalise(b)
  {
    NormaliseAround(a, c, b);
    RewriteDropsOther(c);
    assert Normalise(a) + Rewrite([c]) == Normalise(a);
  }

  /** Whitespace at either end is stripped, not converted. */
  lemma StripSurroundingSpaces(t: string)
    requires t != [] && !IsSpace(t[0]) && !IsSpace(t[|t| - 1])
    ensures Normalise(" " + t + " ") == Normalise(t)
  {
    var s := " " + t + " ";
    assert s[1..] == t + " ";
    assert StripLeft(t + " ") == t + " ";
    assert (t + " ")[..|t|] == t;
    assert StripRight(t + " ") == StripRight(t);
  }

  /** A capital followed by lowercase letters only loses its capital. */
  lemma NormaliseCapitalised(c: char, lc: char, rest: string)
    requires IsUpper(c) && LowerChar(c) == [lc] && rest != [] && IsCanonical(rest)
    ensures Normalise([c] + rest) == [lc] + rest
  {
    var s := [c] + rest;
    assert s[|s| - 1] == rest[|rest| - 1];
    LowerSingle(c);
    LowerAppend([c], rest);
    LowerFixesCanonical(rest);
    CanonicalCons(lc, rest);
    NormaliseVia(s, [lc] + rest);
  }

  /** A one-word header is lowercased. */
  lemma NormaliseAge(header: string)
    requires header == "Age"
    ensures Normalise(header) == "age"
  {
    NormaliseWordLiteral(header, "age");
  }

  /** A two-word header is lowercased and joined with `_`. */
  lemma NormaliseAnnualSpend(first: string, second: string)
    requires first == "Annual" && second == "Spend"
    ensures Normalise(first + " " + second) == "annual_spend"
  {
    assert "annual" + "_" + "spend" == "annual_spend";
    assert CapitalisedWord(first, "annual") && CapitalisedWord(second, "spend");
    assert !IsSpace(first[0]) && !IsSpace(first[5]) && !IsSpace(second[0]) && !IsSpace(second[4]);
    NormaliseWordLiteral(first, "annual");
    NormaliseWordLiteral(second, "spend");
    NormaliseJoinsWordsWithUnderscore(first, second);
  }

  /** A hyphen between two words is deleted, not turned into `_`. */
  lemma NormaliseAnnualHyphenSpend(first: string, second: string)
    requires first == "Annual" && second == "Spend"
    ensures Normalise(first + "-" + second) == "annualspend"
  {
    assert "annual" + "spend" == "annualspend";
    assert CapitalisedWord(first, "annual") && CapitalisedWord(second, "spend");
    assert !IsSpace(first[0]) && !IsSpace(first[5]) && !IsSpace(second[0]) && !IsSpace(second[4]);
    assert !IsLabelChar('-') && !IsUpper('-');
    NormaliseWordLiteral(first, "annual");
    NormaliseWordLiteral(second, "spend");
    NormaliseDropsOther(first, '-', second);
  }

  /** A camel-case header with surrounding spaces loses both its capitals and the spaces. */
  lemma NormaliseJoinDate(header: string)
    requires header == " JoinDate "
    ensures Normalise(header) == "joindate"
  {
    var w := header[1..9];
    assert header == " " + w + " ";
    LowerJoinDate(w);
    NormaliseVia(w, "joindate");
    StripSurroundingSpaces(w);
  }

  lemma LowerJoinDate(w: string)
    requires w == "JoinDate"
    ensures Lower(w) == "joindate"
  {
    var a, b := w[..4], w[4..];
    assert w == a + b;
    assert a == "Join" && b == "Date";
    assert CapitalisedWord(a, "join") && CapitalisedWord(b, "date");
    LowerWordLiteral(a, "join");
    LowerWordLiteral(b, "date");
    LowerAppend(a, b);
  }

  /** `w` is a capital followed by lowercase letters, and `l` is `w` with that capital lowered. */
  predicate CapitalisedWord(w: string, l: string) {
    && |w| >= 2 && |l| == |w| && IsUpper(w[0]) && l[0] == (w[0] as int + 32) as char
    && w[1..] == l[1..] && IsCanonical(w[1..])
  }

  lemma NormaliseWordLiteral(w: string, l: string)
    requires CapitalisedWord(w, l)
    ensures Normalise(w) == l
  {
    assert w == [w[0]] + w[1..] && l == [l[0]] + l[1..];
    NormaliseWord(w[0], w[1..]);
  }

  lemma LowerWordLiteral(w: string, l: string)
    requires CapitalisedWord(w, l)
    ensures Lower(w) == l
  {
    assert w == [w[0]] + w[1..] && l == [l[0]] + l[1..];
    LowerWord(w[0], w[1..]);
  }

  /** A capitalised word of lowercase letters. */
  lemma NormaliseWord(c: char, rest: string)
    requires IsUpper(c) && rest != [] && IsCanonical(rest)
    ensures Normalise([c] + rest) == [(c as int + 32) as char] + rest
  {
    NormaliseCapitalised(c, (c as int + 32) as char, rest);
  }

  lemma LowerWord(c: char, rest: string)
    requires IsUpper(c) && IsCanonical(rest)
    ensures Lower([c] + rest) == [(c as int + 32) as char] + rest
  {
    LowerSingle(c);
    LowerAppend([c], rest);
    LowerFixesCanonical(rest);
  }

  /** A label without surrounding whitespace whose lowercase form is canonical normalises to that form. */
  lemma NormaliseVia(s: string, t: string)
    requires s != [] && !IsSpace(s[0]) && !IsSpace(s[|s| - 1])
    requires Lower(s) == t && IsCanonical(t)
    ensures Normalise(s) == t
  {
    assert Strip(s) == s;
    ReplaceSpacesFixesCanonical(t);
  }

  lemma CanonicalCons(c: char, rest: string)
    requires IsLabelChar(c) && IsCanonical(rest)
    ensures IsCanonical([c] + rest)
  {
    var l := [c] + rest;
    forall k | 0 <= k < |l| ensures IsLabelChar(l[k]) {
      if k > 0 { assert l[k] == rest[k - 1]; }
    }
  }

  /** `sub in s`: some window of `s` equals `sub`. */
  predicate OccursAt(s: string, sub: string, i: nat) {
    i + |sub| <= |s| && s[i..i + |sub|] == sub
  }

  function Contains(s: string, sub: string): (r: bool)
    ensures r <==> exists i: nat :: OccursAt(s, sub, i)
    decreases |s|
  {
    if |sub| > |s| then false
    else if s[..|sub|] == sub then assert OccursAt(s, sub, 0); true
    else
      var r := Contains(s[1..], sub);
      assert r ==> exists i: nat :: OccursAt(s, sub, i) by {
        if r {
          var j: nat :| OccursAt(s[1..], sub, j);
          assert s[j + 1..j + 1 + |sub|] == s[1..][j..j + |sub|];
          assert OccursAt(s, sub, j + 1);
        }
      }
      assert (exists i: nat :: OccursAt(s, sub, i)) ==> r by {
        if exists i: nat :: OccursAt(s, sub, i) {
          var i: nat :| OccursAt(s, sub, i);
          assert i != 0;
          assert s[1..][i - 1..i - 1 + |sub|] == s[i..i + |sub|];
          assert OccursAt(s[1..], sub, i - 1);
        }
      }
      r
  }
}
