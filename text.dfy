// The .NET string operations the diagram interpreter relies on, stated over
// `seq<char>`: `char.IsWhiteSpace`, `string.Trim`, `string.Split` on a set of
// separator characters, `string.Join`, `ToLowerInvariant`, ordinal
// `string.Replace`, `int.Parse` and `int.ToString` (invariant culture).

module Text {
  import opened Wrappers
  import Int32

  /** `char.IsWhiteSpace`: the Unicode space separators, the line and
      paragraph separators, U+0009..U+000D, U+0085 and U+00A0. */
  predicate IsWhiteSpace(c: char) {
    ('\U{0009}' <= c <= '\U{000D}') || c == ' ' || c == '\U{0085}' || c == '\U{00A0}' ||
    c == '\U{1680}' || ('\U{2000}' <= c <= '\U{200A}') || c == '\U{2028}' || c == '\U{2029}' ||
    c == '\U{202F}' || c == '\U{205F}' || c == '\U{3000}'
  }

  /** `TrimStart()`: drops the leading white space. */
  function TrimStart(s: string): (r: string)
    ensures |r| <= |s| && r == s[|s| - |r|..]
    ensures r == [] || !IsWhiteSpace(r[0])
    ensures forall i :: 0 <= i < |s| - |r| ==> IsWhiteSpace(s[i])
  {
    s[Span(s, IsWhiteSpace)..]
  }

  /** `TrimEnd()`: drops the trailing white space. */
  function TrimEnd(s: string): (r: string)
    ensures |r| <= |s| && r == s[..|r|]
    ensures r == [] || !IsWhiteSpace(r[|r| - 1])
    ensures forall i :: |r| <= i < |s| ==> IsWhiteSpace(s[i])
  {
    s[..|s| - SpanEnd(s, IsWhiteSpace)]
  }

  /** Neither begins nor ends with white space. */
  predicate IsTrimmed(s: string) {
    s == [] || (!IsWhiteSpace(s[0]) && !IsWhiteSpace(s[|s| - 1]))
  }

  /** `Trim()`: the text between the leading and the trailing white space. */
  function Trim(s: string): (r: string)
    ensures IsTrimmed(r) && |r| <= |s|
    ensures r == [] <==> forall i :: 0 <= i < |s| ==> IsWhiteSpace(s[i])
  {
    var t := TrimStart(s);
    assert t == s[|s| - |t|..];
    assert forall i :: |s| - |t| <= i < |s| ==> s[i] == t[i - (|s| - |t|)];
    TrimEnd(t)
  }

  /** What `Trim` keeps is one stretch of the original text, starting after
      the leading white space. */
  lemma {:induction false} TrimIsSlice(s: string)
    ensures var k := |s| - |TrimStart(s)|;
      k + |Trim(s)| <= |s| && Trim(s) == s[k..k + |Trim(s)|]
  {
    var t := TrimStart(s);
    var k := |s| - |t|;
    var u := TrimEnd(t);
    var n := |u|;
    assert Trim(s) == u;
    assert t == s[k..] && u == t[..n] && n <= |t|;
    assert s[k..][..n] == s[k..k + n];
    assert Trim(s) == s[k..k + n];
  }

  /** Trimming text that is already trimmed changes nothing. */
  lemma TrimmedIsFixed(s: string)
    requires IsTrimmed(s)
    ensures Trim(s) == s
  {
    if s != [] {
      assert TrimStart(s) == s;
      assert TrimEnd(s) == s;
    }
  }

  /** `s.Split(separators)`: every piece between separators, empty ones kept. */
  function Split(s: string, separators: set<char>): (r: seq<string>)
    ensures |r| >= 1
    ensures forall i :: 0 <= i < |r| ==> forall c :: c in r[i] ==> c !in separators
    ensures |r| == 1 + Occurrences(s, separators)
  {
    if s == [] then [""]
    else
      var rest := Split(s[1..], separators);
      if s[0] in separators then [""] + rest
      else [[s[0]] + rest[0]] + rest[1..]
  }

  /** How many characters of `s` belong to `cs`. */
  function Occurrences(s: string, cs: set<char>): nat {
    if s == [] then 0 else (if s[0] in cs then 1 else 0) + Occurrences(s[1..], cs)
  }

  /** `string.Join(separator, parts)`. */
  function Join(separator: string, parts: seq<string>): (r: string)
    ensures parts == [] ==> r == ""
    ensures |parts| == 1 ==> r == parts[0]
  {
    if parts == [] then ""
    else if |parts| == 1 then parts[0]
    else parts[0] + separator + Join(separator, parts[1..])
  }

  lemma JoinCons(separator: string, x: string, parts: seq<string>)
    requires parts != []
    ensures Join(separator, [x] + parts) == x + separator + Join(separator, parts)
  {
    assert ([x] + parts)[1..] == parts;
  }

  /** Joining the pieces of a split with the separator rebuilds the text. */
  lemma {:induction false} JoinSplit(s: string, separator: char)
    ensures Join([separator], Split(s, {separator})) == s
  {
    if s != [] {
      var rest := Split(s[1..], {separator});
      JoinSplit(s[1..], separator);
      if s[0] == separator {
        JoinCons([separator], "", rest);
      } else if |rest| == 1 {
        assert Join([separator], rest) == rest[0];
      } else {
        assert rest == [rest[0]] + rest[1..];
        JoinCons([separator], rest[0], rest[1..]);
        JoinCons([separator], [s[0]] + rest[0], rest[1..]);
      }
    }
  }

  /** The entries that `Split(separators, TrimEntries | RemoveEmptyEntries)`
      keeps: each piece trimmed, the empty ones dropped. */
  function TrimmedNonEmpty(pieces: seq<string>): (r: seq<string>)
    ensures forall i :: 0 <= i < |r| ==> r[i] != "" && IsTrimmed(r[i])
    ensures |r| <= |pieces|
  {
    if pieces == [] then []
    else
      var t := Trim(pieces[0]);
      if t == "" then TrimmedNonEmpty(pieces[1..]) else [t] + TrimmedNonEmpty(pieces[1..])
  }

  /** The lines of a program: split at CR and LF, trimmed, blank ones dropped. */
  function Lines(program: string): (r: seq<string>)
    ensures forall i :: 0 <= i < |r| ==> r[i] != "" && IsTrimmed(r[i])
  {
    TrimmedNonEmpty(Split(program, {'\r', '\n'}))
  }

  /** Text without a separator is a single piece. */
  lemma {:induction false} SplitWithout(s: string, separators: set<char>)
    requires forall i :: 0 <= i < |s| ==> s[i] !in separators
    ensures Split(s, separators) == [s]
  {
    if s != [] {
      var t := s[1..];
      assert forall i :: 0 <= i < |t| ==> t[i] == s[i + 1];
      SplitWithout(t, separators);
      assert [s[0]] + t == s;
    }
  }

  /** A separator splits the text before it from the text after it. */
  lemma {:induction false} SplitAt(a: string, c: char, b: string, separators: set<char>)
    requires c in separators
    ensures Split(a + [c] + b, separators) == Split(a, separators) + Split(b, separators)
  {
    var s := a + [c] + b;
    var sb := Split(b, separators);
    if a == [] {
      assert s[0] == c && s[1..] == b;
      assert Split(s, separators) == [""] + sb;
    } else {
      var t := a[1..];
      var ra := Split(t, separators);
      assert s[0] == a[0] && s[1..] == t + [c] + b;
      calc {
        Split(s, separators);
        { SplitCons(s, separators); }
        Prepend(a[0], Split(t + [c] + b, separators), separators);
        { SplitAt(t, c, b, separators); }
        Prepend(a[0], ra + sb, separators);
        { PrependAppend(a[0], ra, sb, separators); }
        Prepend(a[0], ra, separators) + sb;
        { SplitCons(a, separators); }
        Split(a, separators) + sb;
      }
    }
  }

  /** The pieces of `s` once its first character is put in front of the
      pieces of the rest: a separator starts a new piece, any other
      character joins the first one. */
  function Prepend(ch: char, pieces: seq<string>, separators: set<char>): seq<string>
    requires pieces != []
  {
    if ch in separators then [""] + pieces else [[ch] + pieces[0]] + pieces[1..]
  }

  /** `Split` takes the first character, then splits the rest. */
  lemma SplitCons(s: string, separators: set<char>)
    requires s != []
    ensures Split(s, separators) == Prepend(s[0], Split(s[1..], separators), separators)
  {
  }

  /** Putting a character in front touches only the first piece. */
  lemma PrependAppend(ch: char, xs: seq<string>, ys: seq<string>, separators: set<char>)
    requires xs != []
    ensures Prepend(ch, xs + ys, separators) == Prepend(ch, xs, separators) + ys
  {
    assert (xs + ys)[0] == xs[0];
    assert (xs + ys)[1..] == xs[1..] + ys;
  }

  /** Pieces are trimmed and kept one at a time: the entries of two runs
      of pieces are those of the first, then those of the second. */
  lemma {:induction false} TrimmedNonEmptyAppend(a: seq<string>, b: seq<string>)
    ensures TrimmedNonEmpty(a + b) == TrimmedNonEmpty(a) + TrimmedNonEmpty(b)
  {
    if a == [] {
      assert a + b == b;
    } else {
      assert (a + b)[0] == a[0];
      assert (a + b)[1..] == a[1..] + b;
      TrimmedNonEmptyAppend(a[1..], b);
    }
  }

  /** A single piece is kept trimmed, or dropped when it is blank. */
  lemma TrimmedNonEmptyOne(piece: string)
    ensures TrimmedNonEmpty([piece]) == if Trim(piece) == "" then [] else [Trim(piece)]
  {
    assert [piece][1..] == [];
  }

  /** A program without a line break is one line, trimmed, or no line at
      all when it is blank. */
  lemma LinesOfOneLine(s: string)
    requires '\n' !in s && '\r' !in s
    ensures Lines(s) == if Trim(s) == "" then [] else [Trim(s)]
  {
    SplitWithout(s, {'\r', '\n'});
    TrimmedNonEmptyOne(s);
  }

  /** A CR or an LF separates the lines before it from the lines after it. */
  lemma LinesAt(a: string, c: char, b: string)
    requires c == '\n' || c == '\r'
    ensures Lines(a + [c] + b) == Lines(a) + Lines(b)
  {
    SplitAt(a, c, b, {'\r', '\n'});
    TrimmedNonEmptyAppend(Split(a, {'\r', '\n'}), Split(b, {'\r', '\n'}));
  }

  /** So does a CR LF pair: the empty piece between the two is dropped. */
  lemma LinesAtCrLf(a: string, b: string)
    ensures Lines(a + "\r\n" + b) == Lines(a) + Lines(b)
  {
    var lf: string := ['\n'] + b;
    assert a + "\r\n" + b == a + ['\r'] + lf;
    LinesAt(a, '\r', lf);
    LinesAfterBreak(b);
  }

  /** A line break at the start adds no line. */
  lemma LinesAfterBreak(b: string)
    ensures Lines(['\n'] + b) == Lines(b)
  {
    var s := ['\n'] + b;
    var pieces := Split(b, {'\r', '\n'});
    assert s[0] == '\n' && s[1..] == b;
    assert Split(s, {'\r', '\n'}) == [""] + pieces;
    assert Trim("") == "";
    assert ([""] + pieces)[1..] == pieces;
  }

  /** A line of the split carries no line break. */
  lemma LinesHaveNoBreaks(program: string)
    ensures forall i :: 0 <= i < |Lines(program)| ==> '\n' !in Lines(program)[i] && '\r' !in Lines(program)[i]
  {
    NoBreaksSurvive(Split(program, {'\r', '\n'}));
  }

  lemma {:induction false} NoBreaksSurvive(pieces: seq<string>)
    requires forall i :: 0 <= i < |pieces| ==> '\n' !in pieces[i] && '\r' !in pieces[i]
    ensures forall i :: 0 <= i < |TrimmedNonEmpty(pieces)| ==>
              '\n' !in TrimmedNonEmpty(pieces)[i] && '\r' !in TrimmedNonEmpty(pieces)[i]
  {
    if pieces != [] {
      var tail := pieces[1..];
      assert forall i :: 0 <= i < |tail| ==> tail[i] == pieces[i + 1];
      NoBreaksSurvive(tail);
      var t := Trim(pieces[0]);
      TrimKeepsAbsent(pieces[0], '\n');
      TrimKeepsAbsent(pieces[0], '\r');
      var rest := TrimmedNonEmpty(tail);
      var r := TrimmedNonEmpty(pieces);
      assert r == if t == "" then rest else [t] + rest;
      forall i | 0 <= i < |r| ensures '\n' !in r[i] && '\r' !in r[i] {
        if t == "" {
          assert r[i] == rest[i];
        } else if i > 0 {
          assert r[i] == rest[i - 1];
        }
      }
    }
  }

  /** Trimming removes characters and adds none. */
  lemma TrimKeepsAbsent(p: string, c: char)
    requires c !in p
    ensures c !in Trim(p)
  {
    var t := Trim(p);
    TrimIsSlice(p);
    var k := |p| - |TrimStart(p)|;
    forall i | 0 <= i < |t| ensures t[i] != c {
      assert t[i] == p[k + i];
    }
  }

  /** `char.ToLowerInvariant`, for the characters whose lower case is ASCII:
      'A'..'Z' and the Kelvin sign map to ASCII letters; U+0130 keeps its
      form under the invariant culture. */
  function LowerChar(c: char): (r: char)
    ensures 'a' <= r <= 'z' ==> ('a' <= c <= 'z' || 'A' <= c <= 'Z' || c == '\U{212A}')
    ensures c < '\U{0080}' && !('A' <= c <= 'Z') ==> r == c
  {
    if 'A' <= c <= 'Z' then (c as int + 32) as char
    else if c == '\U{212A}' then 'k'
    else c
  }

  /** `ToLowerInvariant()` on a string, character by character. */
  function Lower(s: string): (r: string)
    ensures |r| == |s|
    ensures forall i :: 0 <= i < |s| ==> r[i] == LowerChar(s[i])
  {
    seq(|s|, i requires 0 <= i < |s| => LowerChar(s[i]))
  }

  /** `c` is the letter `k` (a lower-case ASCII letter) in either case;
      the Kelvin sign also reads as 'k'. */
  predicate SameLetter(c: char, k: char)
    requires 'a' <= k <= 'z'
  {
    c == k || c as int == k as int - 32 || (k == 'k' && c == '\U{212A}')
  }

  /** A word lowers to a lower-case keyword exactly when it spells the
      keyword with each letter in either case. */
  lemma LowerMatchesIgnoringCase(s: string, keyword: string)
    requires forall i :: 0 <= i < |keyword| ==> 'a' <= keyword[i] <= 'z'
    ensures Lower(s) == keyword <==>
              |s| == |keyword| && forall i :: 0 <= i < |s| ==> SameLetter(s[i], keyword[i])
  {
    if Lower(s) == keyword {
      forall i | 0 <= i < |s|
        ensures SameLetter(s[i], keyword[i])
      {
        assert LowerChar(s[i]) == keyword[i];
      }
    }
    if |s| == |keyword| && forall i :: 0 <= i < |s| ==> SameLetter(s[i], keyword[i]) {
      forall i | 0 <= i < |s|
        ensures Lower(s)[i] == keyword[i]
      {
        assert SameLetter(s[i], keyword[i]);
      }
    }
  }

  /** Ordinal `s.Replace(pattern, replacement)`: occurrences found left to
      right, never overlapping. */
  function Replace(s: string, pattern: string, replacement: string): (r: string)
    requires pattern != []
    ensures forall c :: c in r ==> c in s || c in replacement
    decreases |s|
  {
    if |s| < |pattern| then s
    else if s[..|pattern|] == pattern then
      var rest := s[|pattern|..];
      assert forall c :: c in rest ==> c in s;
      replacement + Replace(rest, pattern, replacement)
    else
      var rest := s[1..];
      assert forall c :: c in rest ==> c in s;
      [s[0]] + Replace(rest, pattern, replacement)
  }

  /** Replacing a single character by text without it removes every copy. */
  lemma {:induction false} ReplaceRemovesChar(s: string, c: char, replacement: string)
    requires c !in replacement
    ensures c !in Replace(s, [c], replacement)
    decreases |s|
  {
    if |s| >= 1 {
      ReplaceRemovesChar(s[1..], c, replacement);
    }
  }

  /** A pattern whose first character is absent leaves the text as it was. */
  lemma {:induction false} ReplaceAbsentIsIdentity(s: string, pattern: string, replacement: string)
    requires pattern != [] && pattern[0] !in s
    ensures Replace(s, pattern, replacement) == s
    decreases |s|
  {
    if |s| >= |pattern| {
      assert s[..|pattern|][0] == s[0];
      ReplaceAbsentIsIdentity(s[1..], pattern, replacement);
    }
  }

  /** The line break markup of a table cell. */
  const LineBreak: string := "<xhtml:br/>"

  /** `Clean`: escapes '&', '<' and '>' and turns real and written line
      breaks into markup line breaks, in that order. Text with no line
      break and no backslash comes out with no raw angle bracket. */
  function Clean(s: string): (r: string)
    ensures '\n' !in s && '\\' !in s ==> '<' !in r && '>' !in r
  {
    var escaped := Escape(s);
    var r := Replace(Replace(escaped, "\n", LineBreak), "\\n", LineBreak);
    if '\n' in escaped || '\\' in escaped then r
    else
      ReplaceAbsentIsIdentity(escaped, "\n", LineBreak);
      ReplaceAbsentIsIdentity(escaped, "\\n", LineBreak);
      r
  }

  /** The first three steps of `Clean`: '&', '<' and '>' escaped. No raw
      angle bracket is left, and no line break or backslash is added. */
  function Escape(s: string): (r: string)
    ensures '<' !in r && '>' !in r
    ensures '\n' !in s ==> '\n' !in r
    ensures '\\' !in s ==> '\\' !in r
  {
    var amp := Replace(s, "&", "&amp;");
    var lt := Replace(amp, "<", "&lt;");
    ReplaceRemovesChar(amp, '<', "&lt;");
    var gt := Replace(lt, ">", "&gt;");
    ReplaceRemovesChar(lt, '>', "&gt;");
    gt
  }

  /** Plain text, with nothing to escape, is left as it is. */
  lemma CleanKeepsPlainText(s: string)
    requires '&' !in s && '<' !in s && '>' !in s && '\n' !in s && '\\' !in s
    ensures Clean(s) == s
  {
    ReplaceAbsentIsIdentity(s, "&", "&amp;");
    ReplaceAbsentIsIdentity(s, "<", "&lt;");
    ReplaceAbsentIsIdentity(s, ">", "&gt;");
    ReplaceAbsentIsIdentity(s, "\n", LineBreak);
    ReplaceAbsentIsIdentity(s, "\\n", LineBreak);
  }

  // ---------------------------------------------------------------------
  // int.Parse and int.ToString

  datatype ParseError =
    | FormatError     // FormatException
    | OverflowError   // OverflowException

  /** The white space `int.Parse` skips around the number: U+0009..U+000D and ' '. */
  predicate IsNumberSpace(c: char) {
    '\U{0009}' <= c <= '\U{000D}' || c == ' '
  }

  predicate IsDigit(c: char) {
    '0' <= c <= '9'
  }

  /** The value of a run of decimal digits. */
  function DigitsValue(ds: string): (n: nat)
    requires forall i :: 0 <= i < |ds| ==> IsDigit(ds[i])
  {
    if ds == [] then 0
    else
      assert IsDigit(ds[|ds| - 1]);
      10 * DigitsValue(ds[..|ds| - 1]) + (ds[|ds| - 1] as int - '0' as int)
  }

  /** Length of the longest prefix of `s` whose characters satisfy `p`. */
  function Span(s: string, p: char -> bool): (n: nat)
    ensures n <= |s|
    ensures forall i :: 0 <= i < n ==> p(s[i])
    ensures n < |s| ==> !p(s[n])
  {
    if s != [] && p(s[0]) then 1 + Span(s[1..], p) else 0
  }

  /** Every character is NUL, as `int.Parse` allows after the number. */
  predicate AllNul(s: string) {
    forall i :: 0 <= i < |s| ==> s[i] == '\0'
  }

  /** Length of the longest suffix of `s` whose characters satisfy `p`. */
  function SpanEnd(s: string, p: char -> bool): (n: nat)
    ensures n <= |s|
    ensures forall i :: |s| - n <= i < |s| ==> p(s[i])
    ensures n < |s| ==> !p(s[|s| - 1 - n])
  {
    if s != [] && p(s[|s| - 1]) then 1 + SpanEnd(s[..|s| - 1], p) else 0
  }

  /** `int.Parse(s)` under the invariant culture: optional white space, an
      optional '+' or '-', one or more ASCII digits, optional white space,
      then nothing but NUL characters. A malformed text is a format error
      even when its digits would also overflow. */
  function ParseInt(s: string): (r: Result<int, ParseError>)
    ensures r.Success? ==> Int32.InRange(r.value)
  {
    var afterLead := s[Span(s, IsNumberSpace)..];
    var signed := afterLead != [] && (afterLead[0] == '+' || afterLead[0] == '-');
    var negative := signed && afterLead[0] == '-';
    ParseUnsigned(negative, if signed then afterLead[1..] else afterLead)
  }

  /** The rest of `int.Parse` after the sign: the digits, then optional
      white space and NUL characters. */
  function ParseUnsigned(negative: bool, body: string): (r: Result<int, ParseError>)
    ensures r.Success? ==> Int32.InRange(r.value)
  {
    var digitCount := Span(body, IsDigit);
    var rest := body[digitCount..];
    var tail := rest[Span(rest, IsNumberSpace)..];
    if digitCount == 0 || !AllNul(tail) then Failure(FormatError)
    else Signed(negative, DigitsValue(body[..digitCount]))
  }

  /** The value of the digits with their sign, when it is an `int`. */
  function Signed(negative: bool, magnitude: nat): (r: Result<int, ParseError>)
    ensures r.Success? ==> Int32.InRange(r.value)
  {
    var value: int := if negative then -(magnitude as int) else magnitude;
    if Int32.InRange(value) then Success(value) else Failure(OverflowError)
  }

  function DigitChar(d: nat): (c: char)
    requires d < 10
    ensures IsDigit(c)
  {
    ('0' as int + d) as char
  }

  /** The decimal digits of `n`, without leading zeros. */
  function Digits(n: nat): (r: string)
    ensures r != []
    ensures forall i :: 0 <= i < |r| ==> IsDigit(r[i])
    ensures DigitsValue(r) == n
  {
    if n < 10 then [DigitChar(n)]
    else
      var r := Digits(n / 10) + [DigitChar(n % 10)];
      assert r[..|r| - 1] == Digits(n / 10);
      r
  }

  /** `n.ToString()` under the invariant culture. */
  function FormatInt(n: int): (r: string)
    ensures r != [] && (IsDigit(r[0]) || r[0] == '-')
  {
    if n < 0 then "-" + Digits(-n) else Digits(n)
  }

  /** Parsing what `ToString` printed gives the number back. */
  lemma ParseFormat(n: int)
    requires Int32.InRange(n)
    ensures ParseInt(FormatInt(n)) == Success(n)
  {
    if n < 0 {
      ParseNegativeDigits(Digits(-n));
    } else {
      ParseDigits(Digits(n));
    }
  }

  /** A run of decimal digits parses to its value, or overflows when that
      value is outside the `int` range. */
  lemma ParseDigits(ds: string)
    requires ds != [] && forall i :: 0 <= i < |ds| ==> IsDigit(ds[i])
    ensures Int32.InRange(DigitsValue(ds)) ==> ParseInt(ds) == Success(DigitsValue(ds))
    ensures !Int32.InRange(DigitsValue(ds)) ==> ParseInt(ds) == Failure(OverflowError)
  {
    UnsignedStart(ds);
    UnsignedDigits(false, ds);
  }

  /** After a minus sign the same digits parse to the negated value, or
      overflow when that is outside the `int` range. */
  lemma ParseNegativeDigits(ds: string)
    requires ds != [] && forall i :: 0 <= i < |ds| ==> IsDigit(ds[i])
    ensures Int32.InRange(-(DigitsValue(ds) as int)) ==> ParseInt("-" + ds) == Success(-(DigitsValue(ds) as int))
    ensures !Int32.InRange(-(DigitsValue(ds) as int)) ==> ParseInt("-" + ds) == Failure(OverflowError)
  {
    NegativeStart(ds);
    UnsignedDigits(true, ds);
  }

  /** Text that starts with a digit has no sign to read. */
  lemma UnsignedStart(s: string)
    requires s != [] && IsDigit(s[0])
    ensures ParseInt(s) == ParseUnsigned(false, s)
  {
    assert !IsNumberSpace(s[0]);
    assert Span(s, IsNumberSpace) == 0 && s[0..] == s;
  }

  /** A leading minus sign makes the value negative. */
  lemma NegativeStart(ds: string)
    ensures ParseInt("-" + ds) == ParseUnsigned(true, ds)
  {
    var s := "-" + ds;
    assert !IsNumberSpace(s[0]);
    assert Span(s, IsNumberSpace) == 0 && s[0..] == s && s[1..] == ds;
  }

  /** Digits alone, after the sign: their value, signed, if it is an `int`. */
  lemma UnsignedDigits(negative: bool, ds: string)
    requires ds != [] && forall i :: 0 <= i < |ds| ==> IsDigit(ds[i])
    ensures ParseUnsigned(negative, ds) == Signed(negative, DigitsValue(ds))
  {
    SpanAll(ds, IsDigit);
    var rest := ds[|ds|..];
    assert rest == [];
    var tail := rest[Span(rest, IsNumberSpace)..];
    assert tail == [] && AllNul(tail);
    assert ds[..|ds|] == ds;
  }

  /** Digits followed by a character that is neither a digit, white space
      nor NUL are a format error, however large the digits' value. */
  lemma ParseTrailingText(ds: string, c: char)
    requires ds != [] && forall i :: 0 <= i < |ds| ==> IsDigit(ds[i])
    requires !IsDigit(c) && !IsNumberSpace(c) && c != '\0'
    ensures ParseInt(ds + [c]) == Failure(FormatError)
  {
    var s := ds + [c];
    UnsignedStart(s);
    SpanPrefix(s, |ds|, IsDigit);
    var rest := s[|ds|..];
    assert rest == [c];
    var tail := rest[Span(rest, IsNumberSpace)..];
    assert tail == [c] && !AllNul(tail);
  }

  /** Text with no digit in it is a format error. */
  lemma ParseNoDigits(s: string)
    requires forall i :: 0 <= i < |s| ==> !IsDigit(s[i])
    ensures ParseInt(s) == Failure(FormatError)
  {
    var lead := Span(s, IsNumberSpace);
    var afterLead := s[lead..];
    var signed := afterLead != [] && (afterLead[0] == '+' || afterLead[0] == '-');
    var k := if signed then lead + 1 else lead;
    var body := s[k..];
    assert body == if signed then afterLead[1..] else afterLead;
    assert body != [] ==> body[0] == s[k];
    assert Span(body, IsDigit) == 0;
  }

  /** The span of `p` over `s` is `n` when the first `n` characters satisfy
      `p` and the next one does not. */
  lemma {:induction false} SpanPrefix(s: string, n: nat, p: char -> bool)
    requires n < |s| && (forall i :: 0 <= i < n ==> p(s[i])) && !p(s[n])
    ensures Span(s, p) == n
  {
    if n > 0 {
      var t := s[1..];
      assert forall i :: 0 <= i < n - 1 ==> t[i] == s[i + 1];
      SpanPrefix(t, n - 1, p);
    }
  }

  lemma {:induction false} SpanAll(s: string, p: char -> bool)
    requires forall i :: 0 <= i < |s| ==> p(s[i])
    ensures Span(s, p) == |s|
  {
    if s != [] {
      SpanAll(s[1..], p);
    }
  }
}
