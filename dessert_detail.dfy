/**
 * `DessertDetail`: the recipe record, the reformatting of its instructions
 * and its decoding from one raw API record with indexed ingredient fields.
 */
module DessertDetails {
  import opened Results
  import opened Strings
  import opened ServiceErrors

  /** The recipe detail, as built by the memberwise initializer or by decoding. */
  datatype DessertDetail = DessertDetail(
    id: string,
    name: string,
    instructions: Option<string>,
    ingredients: map<string, string>,
    imageUrl: string)

  /** One ingredient with its measure, the element type of the sorted ingredient list. */
  datatype IngredientEntry = IngredientEntry(ingredient: string, measure: string)

  // ---------------------------------------------------------------------------
  // reformatText
  // ---------------------------------------------------------------------------

  /** The text with every carriage return deleted. */
  function DropCr(s: string): (r: string)
  {
    if s == [] then [] else (if s[0] == '\r' then [] else [s[0]]) + DropCr(s[1..])
  }

  /** `replacingOccurrences(of: "\r\n", with: "\n")`, scanning left to right. */
  function ReplaceCrLf(s: string): (r: string)
    ensures |r| <= |s|
    decreases |s|
  {
    if |s| >= 2 && s[0] == '\r' && s[1] == '\n' then "\n" + ReplaceCrLf(s[2..])
    else if s == [] then []
    else [s[0]] + ReplaceCrLf(s[1..])
  }

  /** `replacingOccurrences(of: "\r", with: "\n")`. */
  function ReplaceCr(s: string): (r: string)
  {
    seq(|s|, i requires 0 <= i < |s| => if s[i] == '\r' then '\n' else s[i])
  }

  /** Both replacements: every line break becomes `'\n'`. */
  function NormalizeLineBreaks(s: string): (r: string)
    ensures '\r' !in r
    ensures '\r' !in s ==> r == s
  {
    ReplaceCrLfUnchanged(s);
    ReplaceCr(ReplaceCrLf(s))
  }

  /** The length of the first line of `s`: the characters before the first `'\n'`. */
  function LineLength(s: string): (n: nat)
    ensures n <= |s|
    ensures forall i :: 0 <= i < n ==> s[i] != '\n'
    ensures n < |s| ==> s[n] == '\n'
  {
    if s == [] || s[0] == '\n' then 0 else 1 + LineLength(s[1..])
  }

  /** `split(separator: "\n", omittingEmptySubsequences: true)`. */
  function SplitLines(s: string): (lines: seq<string>)
    ensures forall k :: 0 <= k < |lines| ==> lines[k] != [] && '\n' !in lines[k]
    decreases |s|
  {
    if s == [] then []
    else if s[0] == '\n' then SplitLines(s[1..])
    else
      var n := LineLength(s);
      [s[..n]] + SplitLines(s[n..])
  }

  /** `joined(separator:)`. */
  function Join(parts: seq<string>, sep: string): (r: string)
  {
    if parts == [] then []
    else if |parts| == 1 then parts[0]
    else parts[0] + sep + Join(parts[1..], sep)
  }

  /** `"\(index + 1). \(paragraph)"` for every paragraph, in order. */
  function Numbered(lines: seq<string>): (r: seq<string>)
  {
    seq(|lines|, k requires 0 <= k < |lines| => Decimal(k + 1) + ". " + lines[k])
  }

  /** The non-empty lines of `text` once its line breaks are normalised. */
  function Lines(text: string): (r: seq<string>)
  {
    SplitLines(NormalizeLineBreaks(text))
  }

  /** The numbered paragraphs, before they are joined and trimmed. */
  function Paragraphs(text: string): (r: seq<string>)
  {
    Numbered(Lines(text))
  }

  /**
   * `reformatText(_:)`: the numbered paragraphs joined by blank lines and trimmed.
   * No carriage return survives, and no whitespace is left at either end.
   */
  function ReformatText(text: string): (r: string)
    ensures '\r' !in r
    ensures r == [] || (!IsWhitespaceOrNewline(r[0]) && !IsWhitespaceOrNewline(r[|r| - 1]))
  {
    TrimmedParagraphsHaveNoCarriageReturn(text);
    Trimmed(Join(Paragraphs(text), "\n\n"))
  }

  lemma {:induction false} LineLengthAppend(x: string, y: string)
    ensures LineLength(x + y) == if LineLength(x) < |x| then LineLength(x) else |x| + LineLength(y)
    decreases |x|
  {
    if x == [] {
      assert x + y == y;
    } else {
      assert (x + y)[0] == x[0];
      if x[0] != '\n' {
        assert (x + y)[1..] == x[1..] + y;
        LineLengthAppend(x[1..], y);
        assert LineLength(x + y) == 1 + LineLength(x[1..] + y);
        assert LineLength(x) == 1 + LineLength(x[1..]);
      }
    }
  }

  /** Every character of a line comes from the split text. */
  lemma {:induction false} SplitLinesChars(s: string, k: nat, c: char)
    requires k < |SplitLines(s)| && c in SplitLines(s)[k]
    ensures c in s
    decreases |s|
  {
    if s[0] == '\n' {
      SplitLinesChars(s[1..], k, c);
    } else {
      var n := LineLength(s);
      if k > 0 {
        SplitLinesChars(s[n..], k - 1, c);
      }
    }
  }

  /** A line break separates the lines before it from the lines after it. */
  lemma {:induction false} SplitLinesAppend(a: string, b: string)
    ensures SplitLines(a + "\n" + b) == SplitLines(a) + SplitLines(b)
    decreases |a|
  {
    var s := a + "\n" + b;
    if a == [] {
      assert s[1..] == b;
    } else if a[0] == '\n' {
      assert s[1..] == a[1..] + "\n" + b;
      SplitLinesAppend(a[1..], b);
    } else {
      LineLengthAppend(a, "\n" + b);
      var n := LineLength(a);
      assert s == a + ("\n" + b);
      assert s[0] == a[0];
      if n < |a| {
        assert s[..n] == a[..n];
        assert s[n..] == a[n..] + "\n" + b;
        SplitLinesAppend(a[n..], b);
      } else {
        assert ("\n" + b)[0] == '\n';
        assert LineLength(s) == |a|;
        assert s[..|a|] == a;
        assert a[..|a|] == a;
        assert s[|a|..] == "\n" + b;
        assert ("\n" + b)[1..] == b;
        assert a[|a|..] == [];
      }
    }
  }

  /** A non-empty text without line breaks is a single line. */
  lemma SplitLinesSingle(x: string)
    requires x != [] && '\n' !in x
    ensures SplitLines(x) == [x]
  {
    LineLengthAppend(x, []);
    assert x + [] == x;
    assert x[|x|..] == [];
  }

  /** Splitting undoes joining with a blank line, for non-empty one-line parts. */
  lemma {:induction false} SplitJoinRoundTrip(parts: seq<string>)
    requires forall k :: 0 <= k < |parts| ==> parts[k] != [] && '\n' !in parts[k]
    ensures SplitLines(Join(parts, "\n\n")) == parts
  {
    if |parts| == 1 {
      SplitLinesSingle(parts[0]);
    } else if |parts| > 1 {
      var rest := Join(parts[1..], "\n\n");
      assert Join(parts, "\n\n") == parts[0] + "\n" + ("\n" + rest);
      SplitLinesAppend(parts[0], "\n" + rest);
      SplitLinesSingle(parts[0]);
      assert ("\n" + rest)[1..] == rest;
      SplitJoinRoundTrip(parts[1..]);
      assert parts == [parts[0]] + parts[1..];
    }
  }

  /** Joining one more part adds the separator and that part at the end. */
  lemma {:induction false} JoinSnoc(parts: seq<string>, x: string, sep: string)
    requires parts != []
    ensures Join(parts + [x], sep) == Join(parts, sep) + sep + x
  {
    if |parts| > 1 {
      assert (parts + [x])[1..] == parts[1..] + [x];
      JoinSnoc(parts[1..], x, sep);
    }
  }

  /** A joined text starts with its first part. */
  lemma {:induction false} JoinStartsWith(parts: seq<string>, sep: string)
    requires parts != []
    ensures StartsWith(Join(parts, sep), parts[0])
  {
    if |parts| > 1 {
      assert (parts[0] + sep + Join(parts[1..], sep))[..|parts[0]|] == parts[0];
    }
  }

  /** Every character of a joined text comes from a part or from the separator. */
  lemma {:induction false} JoinChars(parts: seq<string>, sep: string, c: char)
    requires c in Join(parts, sep)
    ensures c in sep || exists k :: 0 <= k < |parts| && c in parts[k]
  {
    if |parts| > 1 {
      var rest := Join(parts[1..], sep);
      if c !in parts[0] && c !in sep {
        assert c in rest;
        JoinChars(parts[1..], sep, c);
        var k :| 0 <= k < |parts| - 1 && c in parts[1..][k];
        assert c in parts[k + 1];
      }
    }
  }

  /** The paragraphs keep the line order and each holds no line break. */
  lemma ParagraphShape(text: string, k: nat)
    requires k < |Paragraphs(text)|
    ensures |Paragraphs(text)| == |Lines(text)|
    ensures Paragraphs(text)[k] == Decimal(k + 1) + ". " + Lines(text)[k]
    ensures Lines(text)[k] != [] && '\n' !in Lines(text)[k]
    ensures Paragraphs(text)[k] != [] && '\n' !in Paragraphs(text)[k]
  {
  }

  /**
   * The numbered paragraphs are exactly what is recovered by splitting their
   * join: they are separated by one blank line and by nothing else.
   */
  lemma ParagraphsSeparatedByBlankLine(text: string)
    ensures SplitLines(Join(Paragraphs(text), "\n\n")) == Paragraphs(text)
    ensures forall k :: 0 <= k < |Paragraphs(text)| ==>
      Paragraphs(text)[k] == Decimal(k + 1) + ". " + Lines(text)[k]
  {
    forall k | 0 <= k < |Paragraphs(text)|
      ensures Paragraphs(text)[k] != [] && '\n' !in Paragraphs(text)[k]
    {
      ParagraphShape(text, k);
    }
    SplitJoinRoundTrip(Paragraphs(text));
  }

  /** A paragraph holds no carriage return. */
  lemma ParagraphHasNoCarriageReturn(text: string, k: nat)
    requires k < |Paragraphs(text)|
    ensures '\r' !in Paragraphs(text)[k]
  {
    var line := Lines(text)[k];
    if '\r' in line {
      SplitLinesChars(NormalizeLineBreaks(text), k, '\r');
    }
    var d := Decimal(k + 1);
    assert Paragraphs(text)[k] == d + ". " + line;
    assert forall i :: 0 <= i < |d| ==> d[i] != '\r';
  }

  /** Joining and trimming the numbered paragraphs leaves no carriage return. */
  lemma TrimmedParagraphsHaveNoCarriageReturn(text: string)
    ensures '\r' !in Trimmed(Join(Paragraphs(text), "\n\n"))
  {
    var joined := Join(Paragraphs(text), "\n\n");
    if '\r' in Trimmed(joined) {
      TrimmedChars(joined, '\r');
      JoinChars(Paragraphs(text), "\n\n", '\r');
      var k :| 0 <= k < |Paragraphs(text)| && '\r' in Paragraphs(text)[k];
      ParagraphHasNoCarriageReturn(text, k);
    }
  }

  /** The first paragraph starts with "1." followed by more text. */
  lemma FirstParagraphStart(text: string)
    requires Lines(text) != []
    ensures var p0 := Paragraphs(text)[0]; |p0| > 2 && p0[..2] == "1."
  {
    assert Decimal(1) == "1";
    assert Paragraphs(text)[0] == "1" + ". " + Lines(text)[0];
  }

  /** Every paragraph holds a visible character: the dot after its number. */
  lemma ParagraphKeepsItsDot(text: string, k: nat)
    requires k < |Paragraphs(text)|
    ensures HasVisible(Paragraphs(text)[k])
  {
    var d := Decimal(k + 1);
    var q := Paragraphs(text)[k];
    assert q == d + ". " + Lines(text)[k];
    assert q[|d|] == '.';
  }

  /** With at least one line, only the end of the joined paragraphs is trimmed. */
  lemma ReformatTextTrimsOnlyEnd(text: string)
    requires Lines(text) != []
    ensures ReformatText(text) == TrimEnd(Join(Paragraphs(text), "\n\n"))
  {
    var p := Paragraphs(text);
    FirstParagraphStart(text);
    JoinStartsWith(p, "\n\n");
    var joined := Join(p, "\n\n");
    assert joined[0] == p[0][0] == '1';
    TrimStartNoop(joined);
  }

  /** Trimming the end of a join trims only its last part, when that part holds a visible character. */
  lemma TrimEndJoin(init: seq<string>, last: string, sep: string)
    requires HasVisible(last)
    ensures TrimEnd(Join(init + [last], sep)) == Join(init + [TrimEnd(last)], sep)
  {
    if init == [] {
      assert init + [last] == [last];
      assert init + [TrimEnd(last)] == [TrimEnd(last)];
    } else {
      JoinSnoc(init, last, sep);
      assert Join(init, sep) + sep + last == (Join(init, sep) + sep) + last;
      TrimEndAppend(Join(init, sep) + sep, last);
      JoinSnoc(init, TrimEnd(last), sep);
    }
  }

  /** `TrimEndJoin` for a list of parts split at its last one. */
  lemma TrimEndJoinLast(parts: seq<string>, sep: string)
    requires parts != [] && HasVisible(parts[|parts| - 1])
    ensures TrimEnd(Join(parts, sep)) == Join(parts[..|parts| - 1] + [TrimEnd(parts[|parts| - 1])], sep)
  {
    var n := |parts|;
    assert parts == parts[..n - 1] + [parts[n - 1]];
    TrimEndJoin(parts[..n - 1], parts[n - 1], sep);
  }

  /**
   * With at least one line, trimming touches nothing but the trailing
   * whitespace of the last paragraph.
   */
  lemma ReformatTextTrimsOnlyLastParagraph(text: string)
    requires Lines(text) != []
    ensures var p := Paragraphs(text);
      ReformatText(text) == Join(p[..|p| - 1] + [TrimEnd(p[|p| - 1])], "\n\n")
  {
    var p := Paragraphs(text);
    ReformatTextTrimsOnlyEnd(text);
    ParagraphKeepsItsDot(text, |p| - 1);
    TrimEndJoinLast(p, "\n\n");
  }

  /** A non-empty reformatted text starts with "1.". */
  lemma ReformatTextStartsWithOne(text: string)
    requires Lines(text) != []
    ensures StartsWith(ReformatText(text), "1.")
  {
    var p := Paragraphs(text);
    var joined := Join(p, "\n\n");
    ReformatTextTrimsOnlyEnd(text);
    FirstParagraphStart(text);
    JoinStartsWith(p, "\n\n");
    assert joined[..2] == p[0][..2];
    TrimEndKeepsPrefix(joined, "1.");
  }

  /** The reformatted text is empty exactly when the input has no non-empty line. */
  lemma ReformatTextEmptyIff(text: string)
    ensures ReformatText(text) == [] <==> Lines(text) == []
  {
    if Lines(text) != [] {
      ReformatTextTrimsOnlyLastParagraph(text);
    }
  }

  /** The replacement only deletes carriage returns: nothing else is added, removed or moved. */
  lemma {:induction false} ReplaceCrLfOnlyDropsCr(s: string)
    ensures DropCr(ReplaceCrLf(s)) == DropCr(s)
    decreases |s|
  {
    if |s| >= 2 && s[0] == '\r' && s[1] == '\n' {
      ReplaceCrLfOnlyDropsCr(s[2..]);
      assert s[1..][1..] == s[2..];
      assert ("\n" + ReplaceCrLf(s[2..]))[1..] == ReplaceCrLf(s[2..]);
    } else if s != [] {
      ReplaceCrLfOnlyDropsCr(s[1..]);
      assert ([s[0]] + ReplaceCrLf(s[1..]))[1..] == ReplaceCrLf(s[1..]);
    }
  }

  /** One left-to-right pass: in "\r\r\n" only the second carriage return goes, leaving "\r\n". */
  lemma ReplaceCrLfOnePass()
    ensures ReplaceCrLf("\r\r\n") == "\r\n"
  {
    assert "\r\r\n"[1..] == "\r\n" && "\r\n"[2..] == [];
  }

  lemma ReplaceCrLfCons(c: char, s: string)
    requires c != '\r'
    ensures ReplaceCrLf([c] + s) == [c] + ReplaceCrLf(s)
  {
    var t := [c] + s;
    assert t[0] == c && t[1..] == s;
  }

  /** Text without carriage returns passes through the first replacement unchanged. */
  lemma ReplaceCrLfUnchanged(s: string)
    ensures '\r' !in s ==> ReplaceCrLf(s) == s
  {
    if '\r' !in s {
      ReplaceCrLfKeepsPrefix(s, []);
      assert s + [] == s;
    }
  }

  /** A leading part without carriage returns passes through the first replacement unchanged. */
  lemma {:induction false} ReplaceCrLfKeepsPrefix(a: string, b: string)
    requires '\r' !in a
    ensures ReplaceCrLf(a + b) == a + ReplaceCrLf(b)
    decreases |a|
  {
    if a == [] {
      assert a + b == b;
    } else {
      var c, rest := a[0], a[1..];
      assert a == [c] + rest;
      assert c in a;
      assert '\r' !in rest by {
        assert forall i :: 0 <= i < |rest| ==> rest[i] == a[i + 1];
      }
      assert a + b == [c] + (rest + b);
      ReplaceCrLfCons(c, rest + b);
      ReplaceCrLfKeepsPrefix(rest, b);
      var tail := ReplaceCrLf(b);
      assert [c] + (rest + tail) == ([c] + rest) + tail;
    }
  }

  /** The second replacement works character by character, so it distributes over concatenation. */
  lemma ReplaceCrAppend(x: string, y: string)
    ensures ReplaceCr(x + y) == ReplaceCr(x) + ReplaceCr(y)
  {
  }

  /** Text without carriage returns passes through the second replacement unchanged. */
  lemma ReplaceCrUnchanged(a: string)
    requires '\r' !in a
    ensures ReplaceCr(a) == a
  {
    assert forall i :: 0 <= i < |a| ==> a[i] != '\r' by {
      forall i | 0 <= i < |a| ensures a[i] != '\r' {
        assert a[i] in a;
      }
    }
  }

  /** The first replacement turns a leading `\r\n` into one `\n`. */
  lemma ReplaceCrLfPair(b: string)
    ensures ReplaceCrLf("\r\n" + b) == "\n" + ReplaceCrLf(b)
  {
    var t := "\r\n" + b;
    assert t[0] == '\r' && t[1] == '\n' && t[2..] == b;
  }

  /** The first replacement keeps a `\r` that no `\n` follows. */
  lemma ReplaceCrLfLoneCr(b: string)
    requires b == [] || b[0] != '\n'
    ensures ReplaceCrLf("\r" + b) == "\r" + ReplaceCrLf(b)
  {
    var t := "\r" + b;
    assert t[0] == '\r' && t[1..] == b;
    assert |t| >= 2 ==> t[1] == b[0];
  }

  /**
   * A `\r\n` pair becomes a single `\n`: normalising the text after the first
   * line break is all that is left to do.
   */
  lemma NormalizeCrLf(a: string, b: string)
    requires '\r' !in a
    ensures NormalizeLineBreaks(a + "\r\n" + b) == a + "\n" + NormalizeLineBreaks(b)
  {
    var tail := ReplaceCrLf(b);
    calc {
      NormalizeLineBreaks(a + "\r\n" + b);
      { assert a + "\r\n" + b == a + ("\r\n" + b); }
      ReplaceCr(ReplaceCrLf(a + ("\r\n" + b)));
      { ReplaceCrLfKeepsPrefix(a, "\r\n" + b); ReplaceCrLfPair(b); }
      ReplaceCr(a + ("\n" + tail));
      { ReplaceCrAppend(a, "\n" + tail); ReplaceCrAppend("\n", tail); }
      ReplaceCr(a) + (ReplaceCr("\n") + ReplaceCr(tail));
      { ReplaceCrUnchanged(a); ReplaceCrUnchanged("\n"); }
      a + ("\n" + NormalizeLineBreaks(b));
    }
  }

  /** A lone `\r`, one not followed by `\n`, also becomes a single `\n`. */
  lemma NormalizeLoneCr(a: string, b: string)
    requires '\r' !in a
    requires b == [] || b[0] != '\n'
    ensures NormalizeLineBreaks(a + "\r" + b) == a + "\n" + NormalizeLineBreaks(b)
  {
    var tail := ReplaceCrLf(b);
    calc {
      NormalizeLineBreaks(a + "\r" + b);
      { assert a + "\r" + b == a + ("\r" + b); }
      ReplaceCr(ReplaceCrLf(a + ("\r" + b)));
      { ReplaceCrLfKeepsPrefix(a, "\r" + b); ReplaceCrLfLoneCr(b); }
      ReplaceCr(a + ("\r" + tail));
      { ReplaceCrAppend(a, "\r" + tail); ReplaceCrAppend("\r", tail); }
      ReplaceCr(a) + (ReplaceCr("\r") + ReplaceCr(tail));
      { ReplaceCrUnchanged(a); assert ReplaceCr("\r")[0] == '\n'; }
      a + ("\n" + NormalizeLineBreaks(b));
    }
  }

  lemma NormalizeTwoLines(a: string, b: string)
    requires '\r' !in a && '\r' !in b
    ensures NormalizeLineBreaks(a + "\r\n\r\n" + b) == a + "\n\n" + b
  {
    assert a + "\r\n\r\n" + b == a + ("\r\n" + ("\r\n" + b));
    ReplaceCrLfKeepsPrefix(a, "\r\n" + ("\r\n" + b));
    assert ("\r\n" + ("\r\n" + b))[2..] == "\r\n" + b;
    assert ("\r\n" + b)[2..] == b;
    ReplaceCrLfUnchanged(b);
    assert ReplaceCrLf("\r\n" + b) == "\n" + b;
    assert ReplaceCrLf("\r\n" + ("\r\n" + b)) == "\n" + ("\n" + b);
    assert ReplaceCrLf(a + "\r\n\r\n" + b) == a + "\n\n" + b;
    assert '\r' !in a + "\n\n" + b;
  }

  lemma LinesOfTwo(a: string, b: string)
    requires a != [] && b != []
    requires '\r' !in a && '\n' !in a && '\r' !in b && '\n' !in b
    ensures Lines(a + "\r\n\r\n" + b) == [a, b]
  {
    NormalizeTwoLines(a, b);
    assert a + "\n\n" + b == a + "\n" + ("\n" + b);
    SplitLinesAppend(a, "\n" + b);
    SplitLinesSingle(a);
    assert ("\n" + b)[1..] == b;
    SplitLinesSingle(b);
  }

  lemma ParagraphsOfTwo(a: string, b: string)
    requires a != [] && b != []
    requires '\r' !in a && '\n' !in a && '\r' !in b && '\n' !in b
    ensures Paragraphs(a + "\r\n\r\n" + b) == ["1. " + a, "2. " + b]
  {
    var text := a + "\r\n\r\n" + b;
    LinesOfTwo(a, b);
    assert Decimal(1) == "1" && Decimal(2) == "2";
    assert Paragraphs(text)[0] == Decimal(1) + ". " + a;
    assert Paragraphs(text)[1] == Decimal(2) + ". " + b;
    assert "1" + ". " + a == "1. " + a && "2" + ". " + b == "2. " + b;
    assert |Paragraphs(text)| == 2;
  }

  /**
   * Two lines separated by a blank Windows line become paragraphs 1 and 2,
   * separated by one blank line.
   */
  lemma ReformatTwoParagraphs(a: string, b: string)
    requires a != [] && b != []
    requires '\r' !in a && '\n' !in a && '\r' !in b && '\n' !in b
    requires !IsWhitespaceOrNewline(b[|b| - 1])
    ensures ReformatText(a + "\r\n\r\n" + b) == "1. " + a + "\n\n2. " + b
  {
    var text := a + "\r\n\r\n" + b;
    ParagraphsOfTwo(a, b);
    var joined := "1. " + a + "\n\n2. " + b;
    assert Join(Paragraphs(text), "\n\n") == joined by {
      assert Paragraphs(text)[1..] == ["2. " + b];
    }
    TrimStartNoop(joined);
    assert joined[|joined| - 1] == b[|b| - 1];
  }

  // ---------------------------------------------------------------------------
  // init(from:)
  // ---------------------------------------------------------------------------

  /** One raw record of the detail response: field name to string value, `None` for JSON `null`. */
  type Fields = map<string, Option<string>>

  /** `decodeIfPresent(String.self, forKey:)`: an absent key and `null` both give `nil`. */
  function IfPresent(fields: Fields, key: string): (r: Option<string>)
  {
    if key in fields then fields[key] else None
  }

  /** `decode(String.self, forKey:)`: an absent key or `null` is a decoding error. */
  function Required(fields: Fields, key: string): (r: Result<string, DecodingFailure>)
    ensures r.Success? <==> IfPresent(fields, key).Some?
    ensures r.Success? ==> r.value == IfPresent(fields, key).value
  {
    if key !in fields then Failure(KeyNotFound(key))
    else match fields[key]
      case None => Failure(ValueNotFound(key))
      case Some(v) => Success(v)
  }

  function IngredientKey(i: nat): (key: string)
  {
    "strIngredient" + Decimal(i)
  }

  function MeasureKey(i: nat): (key: string)
  {
    "strMeasure" + Decimal(i)
  }

  /**
   * What the guard of the scan loop lets through at index `i`: the capitalised
   * ingredient and the measure, when both are present and non-empty.
   */
  function PairAt(fields: Fields, i: nat): (r: Option<IngredientEntry>)
    ensures r.Some? <==>
      && IfPresent(fields, IngredientKey(i)).Some? && Capitalized(IfPresent(fields, IngredientKey(i)).value) != ""
      && IfPresent(fields, MeasureKey(i)).Some? && IfPresent(fields, MeasureKey(i)).value != ""
    ensures r.Some? ==> r.value.ingredient == Capitalized(IfPresent(fields, IngredientKey(i)).value)
    ensures r.Some? ==> Some(r.value.measure) == IfPresent(fields, MeasureKey(i))
  {
    match IfPresent(fields, IngredientKey(i))
    case None => None
    case Some(raw) =>
      var ingredient := Capitalized(raw);
      if ingredient == "" then None
      else match IfPresent(fields, MeasureKey(i))
        case None => None
        case Some(measure) => if measure == "" then None else Some(IngredientEntry(ingredient, measure))
  }

  /** The dictionary after the pairs at indices 1 through `n` are stored, later ones overwriting. */
  function Collect(fields: Fields, n: nat): (r: map<string, string>)
  {
    if n == 0 then map[]
    else match PairAt(fields, n)
      case None => Collect(fields, n - 1)
      case Some(e) => Collect(fields, n - 1)[e.ingredient := e.measure]
  }

  /** The first index from `i` on whose pair the guard rejects, looking no further than `|fields| + 1`. */
  function FirstGapFrom(fields: Fields, i: nat): (g: nat)
    ensures i <= g
    ensures forall j :: i <= j < g ==> PairAt(fields, j).Some?
    ensures g <= |fields| + 1 ==> PairAt(fields, g).None?
    ensures i <= |fields| + 1 ==> g <= |fields| + 2
    decreases |fields| + 2 - i
  {
    if i > |fields| + 1 || PairAt(fields, i).None? then i else FirstGapFrom(fields, i + 1)
  }

  /** The ingredient keys of the indices 1 through `n`. */
  function IngredientKeysUpTo(n: nat): set<string>
  {
    if n == 0 then {} else IngredientKeysUpTo(n - 1) + {IngredientKey(n)}
  }

  lemma IngredientKeyInjective(i: nat, j: nat)
    requires IngredientKey(i) == IngredientKey(j)
    ensures i == j
  {
    PrefixCancel("strIngredient", Decimal(i), Decimal(j));
    DecimalInjective(i, j);
  }

  lemma MeasureKeyInjective(i: nat, j: nat)
    requires MeasureKey(i) == MeasureKey(j)
    ensures i == j
  {
    PrefixCancel("strMeasure", Decimal(i), Decimal(j));
    DecimalInjective(i, j);
  }

  /** The key of a later index is not among the keys of the first `n` indices. */
  lemma {:induction false} LaterKeyIsNew(m: nat, n: nat)
    requires n < m
    ensures IngredientKey(m) !in IngredientKeysUpTo(n)
  {
    if n > 0 {
      LaterKeyIsNew(m, n - 1);
      if IngredientKey(m) == IngredientKey(n) {
        IngredientKeyInjective(m, n);
      }
    }
  }

  lemma {:induction false} IngredientKeysUpToCard(n: nat)
    ensures |IngredientKeysUpTo(n)| == n
  {
    if n > 0 {
      IngredientKeysUpToCard(n - 1);
      LaterKeyIsNew(n, n - 1);
    }
  }

  /** When every key of the indices 1 through `n` is in `keys`, so is the whole set of them. */
  lemma {:induction false} IngredientKeysUpToWithin(n: nat, keys: set<string>)
    requires forall j :: 1 <= j <= n ==> IngredientKey(j) in keys
    ensures IngredientKeysUpTo(n) <= keys
  {
    if n > 0 {
      IngredientKeysUpToWithin(n - 1, keys);
    }
  }

  lemma SubsetCardinality<T>(a: set<T>, b: set<T>)
    requires a <= b
    ensures |a| <= |b|
  {
    if a != {} {
      var x :| x in a;
      SubsetCardinality(a - {x}, b - {x});
    }
  }

  /**
   * Some index up to `|fields| + 1` is a gap: the keys of distinct indices are
   * distinct, so the record cannot hold an ingredient for more indices than it
   * has fields.
   */
  lemma GapWithinRecord(fields: Fields)
    ensures FirstGapFrom(fields, 1) <= |fields| + 1
  {
    var n := |fields| + 1;
    if FirstGapFrom(fields, 1) > n {
      forall j | 1 <= j <= n
        ensures IngredientKey(j) in fields
      {
        assert PairAt(fields, j).Some?;
      }
      IngredientKeysUpToCard(n);
      IngredientKeysUpToWithin(n, fields.Keys);
      SubsetCardinality(IngredientKeysUpTo(n), fields.Keys);
    }
  }

  /** The index at which the scan stops: the first one whose pair the guard rejects. */
  function Gap(fields: Fields): (g: nat)
    ensures 1 <= g <= |fields| + 1
    ensures PairAt(fields, g).None?
    ensures forall i :: 1 <= i < g ==> PairAt(fields, i).Some?
  {
    GapWithinRecord(fields);
    FirstGapFrom(fields, 1)
  }

  /** The ingredients dictionary that decoding builds: no ingredient and no measure in it is empty. */
  function Ingredients(fields: Fields): (r: map<string, string>)
    ensures forall k :: k in r ==> k != "" && r[k] != ""
  {
    CollectNonEmpty(fields, Gap(fields) - 1);
    Collect(fields, Gap(fields) - 1)
  }

  /** The ingredient scan of `init(from:)`: the `while true` loop over `index`. */
  method ParseIngredients(fields: Fields) returns (ingredients: map<string, string>)
    ensures ingredients == Ingredients(fields)
  {
    var dict: map<string, string> := map[];
    var index := 1;
    while true
      invariant 1 <= index <= Gap(fields)
      invariant dict == Collect(fields, index - 1)
      decreases Gap(fields) - index
    {
      var rawIngredient := IfPresent(fields, IngredientKey(index));
      if rawIngredient.None? {
        assert PairAt(fields, index).None?;
        break;
      }
      var ingredient := Capitalized(rawIngredient.value);
      if ingredient == "" {
        assert PairAt(fields, index).None?;
        break;
      }
      var measure := IfPresent(fields, MeasureKey(index));
      if measure.None? || measure.value == "" {
        assert PairAt(fields, index).None?;
        break;
      }
      assert PairAt(fields, index) == Some(IngredientEntry(ingredient, measure.value));
      dict := dict[ingredient := measure.value];
      index := index + 1;
    }
    ingredients := dict;
  }

  lemma {:induction false} CollectNonEmpty(fields: Fields, n: nat)
    ensures forall k :: k in Collect(fields, n) ==> k != "" && Collect(fields, n)[k] != ""
  {
    if n > 0 {
      CollectNonEmpty(fields, n - 1);
    }
  }

  lemma {:induction false} CollectComesFromIndices(fields: Fields, n: nat, k: string)
    requires k in Collect(fields, n)
    ensures exists i :: 1 <= i <= n && PairAt(fields, i) == Some(IngredientEntry(k, Collect(fields, n)[k]))
  {
    match PairAt(fields, n)
    case None =>
      CollectComesFromIndices(fields, n - 1, k);
    case Some(e) =>
      if k != e.ingredient {
        CollectComesFromIndices(fields, n - 1, k);
      }
  }

  /** Every stored pair is the one the guard accepted at some index before the gap. */
  lemma IngredientsComeFromScannedIndices(fields: Fields, k: string)
    requires k in Ingredients(fields)
    ensures exists i :: 1 <= i < Gap(fields) && PairAt(fields, i) == Some(IngredientEntry(k, Ingredients(fields)[k]))
  {
    CollectComesFromIndices(fields, Gap(fields) - 1, k);
  }

  lemma {:induction false} CollectLastWins(fields: Fields, n: nat, i: nat)
    requires 1 <= i <= n && PairAt(fields, i).Some?
    requires forall j :: i < j <= n && PairAt(fields, j).Some? ==>
      PairAt(fields, j).value.ingredient != PairAt(fields, i).value.ingredient
    ensures PairAt(fields, i).value.ingredient in Collect(fields, n)
    ensures Collect(fields, n)[PairAt(fields, i).value.ingredient] == PairAt(fields, i).value.measure
  {
    if i < n {
      CollectLastWins(fields, n - 1, i);
    }
  }

  /**
   * Every index before the gap stores its capitalised ingredient with its
   * measure, unless a later index before the gap has the same key, whose
   * measure then wins.
   */
  lemma IngredientsLaterIndexWins(fields: Fields, i: nat)
    requires 1 <= i < Gap(fields)
    requires forall j :: i < j < Gap(fields) ==>
      PairAt(fields, j).value.ingredient != PairAt(fields, i).value.ingredient
    ensures PairAt(fields, i).value.ingredient in Ingredients(fields)
    ensures Ingredients(fields)[PairAt(fields, i).value.ingredient] == PairAt(fields, i).value.measure
  {
    CollectLastWins(fields, Gap(fields) - 1, i);
  }

  lemma {:induction false} CollectAgree(f: Fields, g: Fields, n: nat)
    requires forall i :: 1 <= i <= n ==> PairAt(f, i) == PairAt(g, i)
    ensures Collect(f, n) == Collect(g, n)
  {
    if n > 0 {
      CollectAgree(f, g, n - 1);
    }
  }

  /**
   * Scanning stops at the first gap: what a record holds at the gap's index
   * or beyond (a later valid pair included) never reaches the dictionary.
   */
  lemma IngredientsIgnoreFieldsPastGap(f: Fields, g: Fields)
    requires forall i :: 1 <= i <= Gap(f) ==> PairAt(g, i) == PairAt(f, i)
    ensures Gap(g) == Gap(f)
    ensures Ingredients(g) == Ingredients(f)
  {
    ghost var atGapOfG, atGapOfF := PairAt(f, Gap(g)), PairAt(g, Gap(f));
    CollectAgree(f, g, Gap(f) - 1);
  }

  const IdKey := "idMeal"
  const NameKey := "strMeal"
  const InstructionsKey := "strInstructions"
  const ImageUrlKey := "strMealThumb"

  /**
   * What `init(from:)` produces from a record. Decoding fails exactly when
   * `idMeal`, `strMeal` or `strMealThumb` is absent or `null`, and reports the
   * first of them in that order; otherwise the detail holds the record's fields,
   * its reformatted instructions and its scanned ingredients.
   */
  function Decode(fields: Fields): (r: Result<DessertDetail, DecodingFailure>)
    ensures r.Failure? <==>
      IfPresent(fields, IdKey).None? || IfPresent(fields, NameKey).None? || IfPresent(fields, ImageUrlKey).None?
    ensures IfPresent(fields, IdKey).None? ==> r == Failure(Required(fields, IdKey).error)
    ensures IfPresent(fields, IdKey).Some? && IfPresent(fields, NameKey).None? ==>
      r == Failure(Required(fields, NameKey).error)
    ensures IfPresent(fields, IdKey).Some? && IfPresent(fields, NameKey).Some? && IfPresent(fields, ImageUrlKey).None? ==>
      r == Failure(Required(fields, ImageUrlKey).error)
    ensures r.Success? ==>
      && Some(r.value.id) == IfPresent(fields, IdKey)
      && Some(r.value.name) == IfPresent(fields, NameKey)
      && Some(r.value.imageUrl) == IfPresent(fields, ImageUrlKey)
      && (r.value.instructions.None? <==> IfPresent(fields, InstructionsKey).None?)
      && (r.value.instructions.Some? ==> r.value.instructions.value == ReformatText(IfPresent(fields, InstructionsKey).value))
      && r.value.ingredients == Ingredients(fields)
  {
    match Required(fields, IdKey)
    case Failure(e) => Failure(e)
    case Success(id) =>
      match Required(fields, NameKey)
      case Failure(e) => Failure(e)
      case Success(name) =>
        var instructions :=
          match IfPresent(fields, InstructionsKey)
          case None => None
          case Some(raw) => Some(ReformatText(raw));
        match Required(fields, ImageUrlKey)
        case Failure(e) => Failure(e)
        case Success(imageUrl) => Success(DessertDetail(id, name, instructions, Ingredients(fields), imageUrl))
  }

  /** `init(from:)`, step by step. */
  method DecodeDetail(fields: Fields) returns (result: Result<DessertDetail, DecodingFailure>)
    ensures result == Decode(fields)
  {
    var id := Required(fields, IdKey);
    if id.Failure? {
      return Failure(id.error);
    }
    var name := Required(fields, NameKey);
    if name.Failure? {
      return Failure(name.error);
    }
    var instructions: Option<string> := None;
    var unformattedInstructions := IfPresent(fields, InstructionsKey);
    if unformattedInstructions.Some? {
      instructions := Some(ReformatText(unformattedInstructions.value));
    }
    var imageUrl := Required(fields, ImageUrlKey);
    if imageUrl.Failure? {
      return Failure(imageUrl.error);
    }
    var ingredients := ParseIngredients(fields);
    result := Success(DessertDetail(id.value, name.value, instructions, ingredients, imageUrl.value));
  }


  /** "brown SUGAR" is stored as "Brown Sugar": each word starts upper case, the rest is lower case. */
  lemma CapitalizedExample()
    ensures Capitalized("brown SUGAR") == "Brown Sugar"
  {
    var s := "brown SUGAR";
    var r := Capitalized(s);
    assert InWord(s, 1) && InWord(s, 2) && InWord(s, 3) && InWord(s, 4) && InWord(s, 5);
    assert !InWord(s, 6) && InWord(s, 7) && InWord(s, 8) && InWord(s, 9) && InWord(s, 10);
    assert r[0] == 'B' && r[1] == 'r' && r[2] == 'o' && r[3] == 'w' && r[4] == 'n' && r[5] == ' ';
    assert r[6] == 'S' && r[7] == 'u' && r[8] == 'g' && r[9] == 'a' && r[10] == 'r';
  }

  /** A hyphen ends a word: "stir-fry" becomes "Stir-Fry". */
  lemma CapitalizedAfterHyphen()
    ensures Capitalized("stir-fry") == "Stir-Fry"
  {
    var s := "stir-fry";
    var r := Capitalized(s);
    assert InWord(s, 1) && InWord(s, 2) && InWord(s, 3) && InWord(s, 4);
    assert !InWord(s, 5) && InWord(s, 6) && InWord(s, 7);
    assert r[0] == 'S' && r[1] == 't' && r[2] == 'i' && r[3] == 'r';
    assert r[4] == '-' && r[5] == 'F' && r[6] == 'r' && r[7] == 'y';
  }

  /** A digit is not a letter, so the letter after it starts a word: "3rd" becomes "3Rd". */
  lemma CapitalizedAfterDigit()
    ensures Capitalized("3rd") == "3Rd"
  {
    var t := Capitalized("3rd");
    assert t[0] == '3' && t[1] == 'R' && t[2] == 'd';
  }

  /** An apostrophe is case-ignorable, so it does not end a word: "don't" becomes "Don't". */
  lemma CapitalizedAcrossApostrophe()
    ensures Capitalized("don't") == "Don't"
  {
    var s := "don't";
    var u := Capitalized(s);
    assert InWord(s, 3) && InWord(s, 4);
    assert u[0] == 'D' && u[1] == 'o' && u[2] == 'n' && u[3] == '\'' && u[4] == 't';
  }

  /** "sugar" is stored as "Sugar". */
  lemma CapitalizedSugar()
    ensures Capitalized("sugar") == "Sugar"
  {
    var s := "sugar";
    var r := Capitalized(s);
    assert InWord(s, 1) && InWord(s, 2) && InWord(s, 3) && InWord(s, 4);
    assert r[0] == 'S' && r[1] == 'u' && r[2] == 'g' && r[3] == 'a' && r[4] == 'r';
  }

  /**
   * A record whose second ingredient is empty: the scan keeps the first pair
   * and never reaches the third.
   */
  lemma ScanStopsAtEmptyIngredient(fields: Fields)
    requires fields == map["strIngredient1" := Some("sugar"), "strMeasure1" := Some("1 cup"),
                           "strIngredient2" := Some(""), "strMeasure2" := Some("2 cups"),
                           "strIngredient3" := Some("flour"), "strMeasure3" := Some("2 cups")]
    ensures Gap(fields) == 2
    ensures Ingredients(fields) == map["Sugar" := "1 cup"]
  {
    CapitalizedSugar();
    assert Capitalized("") == "";
    assert Decimal(1) == "1" && Decimal(2) == "2";
    assert IngredientKey(1) == "strIngredient1" && MeasureKey(1) == "strMeasure1";
    assert IngredientKey(2) == "strIngredient2";
    assert IfPresent(fields, "strIngredient1") == Some("sugar");
    assert IfPresent(fields, "strMeasure1") == Some("1 cup");
    assert IfPresent(fields, "strIngredient2") == Some("");
    assert PairAt(fields, 1) == Some(IngredientEntry("Sugar", "1 cup"));
    assert PairAt(fields, 2) == None;
    assert FirstGapFrom(fields, 2) == 2;
    assert FirstGapFrom(fields, 1) == 2;
    assert Collect(fields, 1) == Collect(fields, 0)["Sugar" := "1 cup"];
  }
}
