/**
 * The Foundation string operations the app relies on, over the ASCII letters
 * (case mapping) and the exact Unicode whitespace set (trimming).
 */
module Strings {

  /** The character of a decimal digit. */
  function Digit(d: nat): (c: char)
    requires d < 10
    ensures '0' <= c <= '9'
  {
    ('0' as int + d) as char
  }

  /** `"\(n)"`: the decimal rendering of a non-negative `Int`. */
  function Decimal(n: nat): (s: string)
    ensures |s| >= 1
    ensures forall i :: 0 <= i < |s| ==> '0' <= s[i] <= '9'
    ensures n >= 10 ==> |s| >= 2
  {
    if n < 10 then [Digit(n)] else Decimal(n / 10) + [Digit(n % 10)]
  }

  /** Different numbers are rendered differently. */
  lemma {:induction false} DecimalInjective(a: nat, b: nat)
    requires Decimal(a) == Decimal(b)
    ensures a == b
  {
    if a >= 10 && b >= 10 {
      var sa, sb := Decimal(a), Decimal(b);
      assert sa[..|sa| - 1] == Decimal(a / 10);
      assert sb[..|sb| - 1] == Decimal(b / 10);
      DecimalInjective(a / 10, b / 10);
      assert Digit(a % 10) == sa[|sa| - 1] == sb[|sb| - 1] == Digit(b % 10);
    } else if a < 10 && b < 10 {
      assert Digit(a) == Decimal(a)[0] == Decimal(b)[0] == Digit(b);
    }
  }

  /** If `p + x == p + y` then `x == y`. */
  lemma PrefixCancel(p: string, x: string, y: string)
    requires p + x == p + y
    ensures x == y
  {
    assert x == (p + x)[|p|..];
    assert y == (p + y)[|p|..];
  }

  /** The lower-case form of an ASCII capital; every other character is kept. */
  function LowerChar(c: char): (r: char)
    ensures !('A' <= r <= 'Z')
    ensures ('a' <= r <= 'z') <==> ('A' <= c <= 'Z' || 'a' <= c <= 'z')
  {
    if 'A' <= c <= 'Z' then (c as int + 32) as char else c
  }

  /** The capital form of an ASCII lower-case letter; every other character is kept. */
  function UpperChar(c: char): (r: char)
    ensures !('a' <= r <= 'z')
    ensures ('A' <= r <= 'Z') <==> ('A' <= c <= 'Z' || 'a' <= c <= 'z')
  {
    if 'a' <= c <= 'z' then (c as int - 32) as char else c
  }

  /** `lowercased()`: every letter in lower case, everything else kept. */
  function Lowercased(s: string): (r: string)
    ensures |r| == |s|
    ensures forall i :: 0 <= i < |s| ==> r[i] == LowerChar(s[i])
  {
    seq(|s|, i requires 0 <= i < |s| => LowerChar(s[i]))
  }

  /** Letters that have case: the ASCII letters and the Latin-1 letters. */
  predicate IsCased(c: char)
  {
    || ('A' <= c <= 'Z') || ('a' <= c <= 'z') || c == '\U{AA}' || c == '\U{B5}' || c == '\U{BA}'
    || ('\U{C0}' <= c <= '\U{FF}' && c != '\U{D7}' && c != '\U{F7}')
  }

  /** The case-ignorable characters of ASCII and Latin-1: apostrophe, period, colon and the spacing accents. */
  predicate IsCaseIgnorable(c: char)
  {
    || c == '\'' || c == '.' || c == ':' || c == '^' || c == '`'
    || c == '\U{A8}' || c == '\U{AD}' || c == '\U{AF}' || c == '\U{B4}' || c == '\U{B7}' || c == '\U{B8}'
  }

  /**
   * Position `i` continues a word: the last character before it that is not
   * case-ignorable is a cased letter. Anything else before it (a space, a
   * hyphen, a digit, the start of the text) makes `s[i]` start a new word.
   */
  predicate InWord(s: string, i: nat)
    requires i <= |s|
  {
    if i == 0 then false
    else if IsCaseIgnorable(s[i - 1]) then InWord(s, i - 1)
    else IsCased(s[i - 1])
  }

  /** The character `capitalized` puts at position `i` of `s`. */
  function CapitalizedAt(s: string, i: nat): char
    requires i < |s|
  {
    if InWord(s, i) then LowerChar(s[i]) else UpperChar(s[i])
  }

  /**
   * `capitalized`: the first character of each word in upper case and every
   * other character in lower case.
   */
  function Capitalized(s: string): (r: string)
    ensures |r| == |s|
    ensures forall i :: 0 <= i < |s| ==> r[i] == CapitalizedAt(s, i)
  {
    seq(|s|, i requires 0 <= i < |s| => CapitalizedAt(s, i))
  }

  /** Where a word starts does not depend on the case of the letters. */
  lemma {:induction false} InWordCaseless(a: string, b: string, i: nat)
    requires Lowercased(a) == Lowercased(b) && i <= |a|
    ensures InWord(a, i) == InWord(b, i)
  {
    if i > 0 {
      assert LowerChar(a[i - 1]) == LowerChar(b[i - 1]);
      InWordCaseless(a, b, i - 1);
    }
  }

  /** Two capitalised strings that lowercase alike are the same string. */
  lemma CapitalizedCaselessInjective(a: string, b: string)
    requires Lowercased(Capitalized(a)) == Lowercased(Capitalized(b))
    ensures Capitalized(a) == Capitalized(b)
  {
    var ca, cb := Capitalized(a), Capitalized(b);
    forall i | 0 <= i < |a|
      ensures LowerChar(a[i]) == LowerChar(b[i])
    {
      assert LowerChar(ca[i]) == LowerChar(cb[i]);
    }
    assert Lowercased(a) == Lowercased(b);
    forall i | 0 <= i < |a|
      ensures ca[i] == cb[i]
    {
      assert LowerChar(a[i]) == LowerChar(b[i]);
      InWordCaseless(a, b, i);
    }
  }

  /** `CharacterSet.whitespacesAndNewlines`: the Zs, Zl and Zp characters, tab, U+000A to U+000D and U+0085. */
  predicate IsWhitespaceOrNewline(c: char)
  {
    || c == '\t' || ('\n' <= c <= '\r') || c == ' ' || c == '\U{85}' || c == '\U{A0}'
    || c == '\U{1680}' || ('\U{2000}' <= c <= '\U{200A}') || c == '\U{2028}' || c == '\U{2029}'
    || c == '\U{202F}' || c == '\U{205F}' || c == '\U{3000}'
  }

  /** Drops the leading whitespace and newlines. */
  function TrimStart(s: string): (r: string)
    ensures |r| <= |s| && r == s[|s| - |r|..]
    ensures r == [] || !IsWhitespaceOrNewline(r[0])
    ensures forall i :: 0 <= i < |s| - |r| ==> IsWhitespaceOrNewline(s[i])
  {
    if s != [] && IsWhitespaceOrNewline(s[0]) then TrimStart(s[1..]) else s
  }

  /** Drops the trailing whitespace and newlines. */
  function TrimEnd(s: string): (r: string)
    ensures |r| <= |s| && r == s[..|r|]
    ensures r == [] || !IsWhitespaceOrNewline(r[|r| - 1])
    ensures forall i :: |r| <= i < |s| ==> IsWhitespaceOrNewline(s[i])
  {
    if s != [] && IsWhitespaceOrNewline(s[|s| - 1]) then TrimEnd(s[..|s| - 1]) else s
  }

  /** `trimmingCharacters(in: .whitespacesAndNewlines)`: no whitespace is left at either end. */
  function Trimmed(s: string): (r: string)
    ensures r == [] || (!IsWhitespaceOrNewline(r[0]) && !IsWhitespaceOrNewline(r[|r| - 1]))
  {
    var t := TrimStart(s);
    var r := TrimEnd(t);
    assert r == [] || r[0] == t[0];
    r
  }

  /** The trimmed string is a contiguous piece of the original. */
  lemma TrimmedIsInfix(s: string)
    ensures exists a, b :: 0 <= a <= b <= |s| && Trimmed(s) == s[a..b]
  {
    var t := TrimStart(s);
    var a := |s| - |t|;
    var r := TrimEnd(t);
    assert r == s[a..a + |r|];
  }

  /** Trimming keeps only characters of the original. */
  lemma TrimmedChars(s: string, c: char)
    requires c in Trimmed(s)
    ensures c in s
  {
    var t := TrimStart(s);
    var r := TrimEnd(t);
    var i :| 0 <= i < |r| && r[i] == c;
    assert t[i] == c;
    assert s[|s| - |t| + i] == c;
  }

  /** A prefix that ends in a visible character survives `TrimEnd`. */
  lemma TrimEndKeepsPrefix(s: string, q: string)
    requires StartsWith(s, q) && q != [] && !IsWhitespaceOrNewline(q[|q| - 1])
    ensures StartsWith(TrimEnd(s), q)
  {
    var r := TrimEnd(s);
    assert r[..|q|] == s[..|q|];
  }

  /** `s` holds a character that is neither whitespace nor a newline. */
  predicate HasVisible(s: string)
  {
    exists i :: 0 <= i < |s| && !IsWhitespaceOrNewline(s[i])
  }

  /** Trailing whitespace of a suffix that holds some other character is all `TrimEnd` removes. */
  lemma {:induction false} TrimEndAppend(a: string, b: string)
    requires HasVisible(b)
    ensures TrimEnd(a + b) == a + TrimEnd(b)
  {
    var i :| 0 <= i < |b| && !IsWhitespaceOrNewline(b[i]);
    TrimEndAppendAt(a, b, i);
  }

  /** `TrimEndAppend` with the index of the visible character given. */
  lemma {:induction false} TrimEndAppendAt(a: string, b: string, i: nat)
    requires i < |b| && !IsWhitespaceOrNewline(b[i])
    ensures TrimEnd(a + b) == a + TrimEnd(b)
    decreases |b|
  {
    var s := a + b;
    assert s[|s| - 1] == b[|b| - 1];
    if IsWhitespaceOrNewline(b[|b| - 1]) {
      var b' := b[..|b| - 1];
      assert s[..|s| - 1] == a + b';
      assert b'[i] == b[i];
      TrimEndAppendAt(a, b', i);
    }
  }

  /** A string that does not start with whitespace is unchanged by `TrimStart`. */
  lemma TrimStartNoop(s: string)
    requires s != [] && !IsWhitespaceOrNewline(s[0])
    ensures TrimStart(s) == s
  {
  }

  /** Swift's `<` on strings: lexicographic order of the characters. */
  predicate Less(a: string, b: string)
    decreases |a|
  {
    if a == [] then b != []
    else b != [] && (a[0] < b[0] || (a[0] == b[0] && Less(a[1..], b[1..])))
  }

  lemma {:induction false} LessIrreflexive(a: string)
    ensures !Less(a, a)
    decreases |a|
  {
    if a != [] {
      LessIrreflexive(a[1..]);
    }
  }

  lemma {:induction false} LessTransitive(a: string, b: string, c: string)
    requires Less(a, b) && Less(b, c)
    ensures Less(a, c)
    decreases |a|
  {
    if a != [] && a[0] == b[0] && b[0] == c[0] {
      LessTransitive(a[1..], b[1..], c[1..]);
    }
  }

  lemma {:induction false} LessTotal(a: string, b: string)
    requires a != b
    ensures Less(a, b) || Less(b, a)
    decreases |a|
  {
    if a != [] && b != [] && a[0] == b[0] {
      assert a == [a[0]] + a[1..] && b == [b[0]] + b[1..];
      LessTotal(a[1..], b[1..]);
    }
  }

  lemma LessAsymmetric(a: string, b: string)
    requires Less(a, b)
    ensures !Less(b, a)
  {
    if Less(b, a) {
      LessTransitive(a, b, a);
      LessIrreflexive(a);
    }
  }

  /** `!(b < a)` is transitive. */
  lemma NotLessTransitive(a: string, b: string, c: string)
    requires !Less(b, a) && !Less(c, b)
    ensures !Less(c, a)
  {
    if a != b { LessTotal(a, b); }
    if b != c { LessTotal(b, c); }
    if a != b && b != c { LessTransitive(a, b, c); }
    if Less(c, a) {
      if a == b { LessAsymmetric(c, a); }
      else if b == c { LessAsymmetric(c, a); }
      else { LessAsymmetric(a, c); }
    }
  }

  /** A common prefix does not change how two strings compare. */
  lemma {:induction false} LessCommonPrefix(p: string, a: string, b: string)
    ensures Less(p + a, p + b) <==> Less(a, b)
    decreases |p|
  {
    if p != [] {
      assert (p + a)[0] == p[0] && (p + b)[0] == p[0];
      assert (p + a)[1..] == p[1..] + a && (p + b)[1..] == p[1..] + b;
      LessCommonPrefix(p[1..], a, b);
    } else {
      assert p + a == a && p + b == b;
    }
  }

  predicate StartsWith(s: string, p: string)
  {
    |p| <= |s| && s[..|p|] == p
  }

  /** `contains(_:)`: `p` occurs somewhere in `s`. */
  predicate Contains(s: string, p: string)
    decreases |s|
  {
    StartsWith(s, p) || (s != [] && Contains(s[1..], p))
  }

  /** `p` occurs in `s` starting at position `i`. */
  predicate OccursAt(s: string, p: string, i: int)
  {
    0 <= i <= |s| - |p| && s[i..i + |p|] == p
  }

  /** `Contains` holds exactly when `p` occurs at some position of `s`. */
  lemma {:induction false} ContainsIff(s: string, p: string)
    ensures Contains(s, p) <==> exists i :: OccursAt(s, p, i)
    decreases |s|
  {
    if StartsWith(s, p) {
      assert OccursAt(s, p, 0);
    }
    if s != [] {
      ContainsIff(s[1..], p);
      if Contains(s[1..], p) {
        var i :| OccursAt(s[1..], p, i);
        assert s[1..][i..i + |p|] == s[i + 1..i + 1 + |p|];
        assert OccursAt(s, p, i + 1);
      }
      if exists i :: OccursAt(s, p, i) {
        var i :| OccursAt(s, p, i);
        if i > 0 {
          assert s[1..][i - 1..i - 1 + |p|] == s[i..i + |p|];
          assert OccursAt(s[1..], p, i - 1);
        }
      }
    }
  }

  /** A string without the first character of a non-empty pattern does not contain it. */
  lemma {:induction false} MissingFirstCharNotContained(s: string, p: string)
    requires p != [] && p[0] !in s
    ensures !Contains(s, p)
    decreases |s|
  {
    if s != [] {
      assert s[0] != p[0];
      MissingFirstCharNotContained(s[1..], p);
    }
  }

  /** A lower-case letter is absent from `Lowercased(s)` when neither of its cases is in `s`. */
  lemma LowercasedMisses(s: string, c: char)
    requires 'a' <= c <= 'z' && c !in s && UpperChar(c) !in s
    ensures c !in Lowercased(s)
  {
  }

  lemma LowercasedIdempotent(s: string)
    ensures Lowercased(Lowercased(s)) == Lowercased(s)
  {
  }
}
