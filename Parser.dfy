/**
 * The command parser (src/parser.rs): one request line becomes a `Statement`
 * or a `ParseError`. Everything here is a pure function of the line.
 */
module Parser {
  import opened Wrappers

  /** A parsed request. The `Set` value is kept as the raw token. */
  datatype Statement = Set(key: string, value: string) | Get(key: string)

  datatype ParseError = EmptyStatement | InvalidStatement(reason: string) | UnknownCommand

  /** Rust's `u8`, the type of the argument count handed to the error formatter. */
  newtype u8 = n: int | 0 <= n < 256

  // ---------------------------------------------------------------------------
  // Characters and tokens
  // ---------------------------------------------------------------------------

  /**
   * Rust's `char::is_whitespace`: the code points with the Unicode White_Space
   * property (tab, line feed, vertical tab, form feed, carriage return, space,
   * next line, no-break space, and the Unicode space separators).
   */
  predicate IsWhitespace(c: char) {
    var n := c as int;
    || 0x09 <= n <= 0x0D
    || n == 0x20
    || n == 0x85
    || n == 0xA0
    || n == 0x1680
    || 0x2000 <= n <= 0x200A
    || n == 0x2028
    || n == 0x2029
    || n == 0x202F
    || n == 0x205F
    || n == 0x3000
  }

  /** A (possibly empty) run of whitespace. */
  predicate IsBlank(s: string) {
    forall i :: 0 <= i < |s| ==> IsWhitespace(s[i])
  }

  /** A token as `split_whitespace` yields it: non-empty and free of whitespace. */
  predicate IsWord(s: string) {
    s != [] && forall i :: 0 <= i < |s| ==> !IsWhitespace(s[i])
  }

  /** The length of the longest whitespace-free prefix of `s`. */
  function WordLength(s: string): (n: nat)
    ensures n <= |s|
    ensures forall i :: 0 <= i < n ==> !IsWhitespace(s[i])
    ensures n == |s| || IsWhitespace(s[n])
  {
    if s == [] || IsWhitespace(s[0]) then 0 else 1 + WordLength(s[1..])
  }

  /**
   * `str::split_whitespace`, collected: the maximal whitespace-free runs of
   * `s`, left to right.
   */
  function SplitWhitespace(s: string): (tokens: seq<string>)
    ensures forall i :: 0 <= i < |tokens| ==> IsWord(tokens[i])
    decreases |s|
  {
    if s == [] then []
    else if IsWhitespace(s[0]) then SplitWhitespace(s[1..])
    else
      var n := WordLength(s);
      [s[..n]] + SplitWhitespace(s[n..])
  }

  /** The characters of `s` that are not whitespace, in order. */
  function NonWhitespace(s: string): string {
    if s == [] then []
    else if IsWhitespace(s[0]) then NonWhitespace(s[1..])
    else [s[0]] + NonWhitespace(s[1..])
  }

  /** All tokens glued together with nothing in between. */
  function Concat(tokens: seq<string>): string {
    if tokens == [] then [] else tokens[0] + Concat(tokens[1..])
  }

  /**
   * `tokens[0] + gaps[0] + tokens[1] + gaps[1] + ...`: a line laid out from its
   * tokens, each followed by its own gap of whitespace.
   */
  function Joined(tokens: seq<string>, gaps: seq<string>): string
    requires |gaps| == |tokens|
  {
    if tokens == [] then [] else tokens[0] + gaps[0] + Joined(tokens[1..], gaps[1..])
  }

  /** Gaps between tokens are non-empty whitespace runs; the gap after the last token may be empty. */
  predicate ValidGaps(gaps: seq<string>) {
    forall i :: 0 <= i < |gaps| ==> IsBlank(gaps[i]) && (i + 1 < |gaps| ==> gaps[i] != [])
  }

  /** The gaps of the canonical layout: a single space between tokens, nothing after the last. */
  function SingleSpaces(n: nat): (gaps: seq<string>)
    ensures |gaps| == n && ValidGaps(gaps)
  {
    if n == 0 then [] else if n == 1 then [""] else [" "] + SingleSpaces(n - 1)
  }

  /** The tokens written out with one space between consecutive tokens. */
  function Canonical(tokens: seq<string>): string {
    Joined(tokens, SingleSpaces(|tokens|))
  }

  /** ASCII lower-casing of one character. */
  function LowerAscii(c: char): char {
    if 'A' <= c <= 'Z' then (c as int + 32) as char else c
  }

  /** `str::to_lowercase`, restricted to the ASCII letters. */
  function Lowercase(s: string): (r: string)
    ensures |r| == |s|
    ensures forall i :: 0 <= i < |s| ==> r[i] == LowerAscii(s[i])
  {
    if s == [] then [] else [LowerAscii(s[0])] + Lowercase(s[1..])
  }

  // ---------------------------------------------------------------------------
  // Decimal rendering of the argument count (`format!("{}", n)`)
  // ---------------------------------------------------------------------------

  predicate IsDigit(c: char) {
    '0' <= c <= '9'
  }

  function DigitChar(d: nat): (c: char)
    requires d < 10
    ensures IsDigit(c) && DigitValue(c) == d
  {
    ('0' as int + d) as char
  }

  function DigitValue(c: char): nat
    requires IsDigit(c)
  {
    c as int - '0' as int
  }

  /** The value of a string of decimal digits. */
  function DecimalValue(s: string): nat
    requires forall i :: 0 <= i < |s| ==> IsDigit(s[i])
  {
    if s == [] then 0 else 10 * DecimalValue(s[..|s| - 1]) + DigitValue(s[|s| - 1])
  }

  /** Rust's `Display` for an unsigned integer: decimal digits, no leading zero. */
  function DecimalString(n: nat): (s: string)
    ensures |s| >= 1
    ensures forall i :: 0 <= i < |s| ==> IsDigit(s[i])
    ensures |s| > 1 ==> s[0] != '0'
  {
    if n < 10 then [DigitChar(n)] else DecimalString(n / 10) + [DigitChar(n % 10)]
  }

  // ---------------------------------------------------------------------------
  // The parser
  // ---------------------------------------------------------------------------

  /** `fmt_invalid_number_of_args_error`. */
  function InvalidArgCount(expected: u8): ParseError {
    InvalidStatement("Expecting " + DecimalString(expected as nat) + " arguments")
  }

  /** `parse`: split on whitespace, match the lower-cased first token, check the arity. */
  function Parse(text: string): Result<Statement, ParseError> {
    var tokens := SplitWhitespace(text);
    if tokens == [] then Err(EmptyStatement)
    else
      var command := Lowercase(tokens[0]);
      var args := tokens[1..];
      if command == "set" then
        if |args| == 2 then Ok(Set(args[0], args[1])) else Err(InvalidArgCount(2))
      else if command == "get" then
        if |args| == 1 then Ok(Get(args[0])) else Err(InvalidArgCount(1))
      else
        Err(UnknownCommand)
  }

  // ---------------------------------------------------------------------------
  // Lemmas about splitting
  // ---------------------------------------------------------------------------

  /** A line has no tokens exactly when it is all whitespace. */
  lemma {:induction false} SplitEmptyIffBlank(s: string)
    ensures SplitWhitespace(s) == [] <==> IsBlank(s)
    decreases |s|
  {
    if s != [] && IsWhitespace(s[0]) {
      SplitEmptyIffBlank(s[1..]);
      if IsBlank(s[1..]) {
        forall i | 0 <= i < |s| ensures IsWhitespace(s[i]) {
          if i > 0 { assert s[i] == s[1..][i - 1]; }
        }
      }
    }
  }

  /** Leading whitespace produces no token. */
  lemma {:induction false} SplitSkipsLeadingBlank(ws: string, s: string)
    requires IsBlank(ws)
    ensures SplitWhitespace(ws + s) == SplitWhitespace(s)
    decreases |ws|
  {
    if ws != [] {
      assert (ws + s)[0] == ws[0] && IsWhitespace(ws[0]);
      assert (ws + s)[1..] == ws[1..] + s;
      assert SplitWhitespace(ws + s) == SplitWhitespace(ws[1..] + s);
      SplitSkipsLeadingBlank(ws[1..], s);
    } else {
      assert ws + s == s;
    }
  }

  /** A word followed by whitespace (or by nothing) is read as one whole token. */
  lemma {:induction false} WordLengthOfWord(w: string, s: string)
    requires IsWord(w)
    requires s == [] || IsWhitespace(s[0])
    ensures WordLength(w + s) == |w|
    decreases |w|
  {
    assert (w + s)[0] == w[0];
    if |w| > 1 {
      assert (w + s)[1..] == w[1..] + s;
      WordLengthOfWord(w[1..], s);
    } else {
      assert (w + s)[1..] == s;
    }
  }

  /** A word followed by whitespace (or by nothing) is the next token. */
  lemma SplitWordThen(w: string, s: string)
    requires IsWord(w)
    requires s == [] || IsWhitespace(s[0])
    ensures SplitWhitespace(w + s) == [w] + SplitWhitespace(s)
  {
    WordLengthOfWord(w, s);
    assert (w + s)[0] == w[0];
    assert (w + s)[..|w|] == w;
    assert (w + s)[|w|..] == s;
  }

  /** Trailing whitespace produces no token. */
  lemma {:induction false} SplitSkipsTrailingBlank(s: string, ws: string)
    requires IsBlank(ws)
    ensures SplitWhitespace(s + ws) == SplitWhitespace(s)
    decreases |s|
  {
    if s == [] {
      assert s + ws == ws;
      SplitEmptyIffBlank(ws);
    } else if IsWhitespace(s[0]) {
      assert (s + ws)[0] == s[0];
      assert (s + ws)[1..] == s[1..] + ws;
      SplitSkipsTrailingBlank(s[1..], ws);
    } else {
      var n := WordLength(s);
      var w := s[..n];
      assert s == w + s[n..];
      assert IsWord(w);
      assert s + ws == w + (s[n..] + ws);
      if n < |s| {
        SplitWordThen(w, s[n..] + ws);
        SplitWordThen(w, s[n..]);
        SplitSkipsTrailingBlank(s[n..], ws);
      } else {
        assert s[n..] == [];
        assert s[n..] + ws == ws;
        SplitWordThen(w, ws);
        SplitWordThen(w, []);
        SplitEmptyIffBlank(ws);
      }
    }
  }

  /**
   * Splitting is a left inverse of laying out: whatever whitespace surrounds
   * and separates a sequence of words, splitting gives back exactly those words.
   */
  lemma {:induction false} SplitJoined(lead: string, tokens: seq<string>, gaps: seq<string>)
    requires IsBlank(lead)
    requires |gaps| == |tokens| && ValidGaps(gaps)
    requires forall i :: 0 <= i < |tokens| ==> IsWord(tokens[i])
    ensures SplitWhitespace(lead + Joined(tokens, gaps)) == tokens
    decreases |tokens|
  {
    SplitSkipsLeadingBlank(lead, Joined(tokens, gaps));
    if tokens != [] {
      var rest := Joined(tokens[1..], gaps[1..]);
      assert ValidGaps(gaps[1..]) by {
        forall i | 0 <= i < |gaps[1..]|
          ensures IsBlank(gaps[1..][i]) && (i + 1 < |gaps[1..]| ==> gaps[1..][i] != [])
        {
          assert gaps[1..][i] == gaps[i + 1];
        }
      }
      SplitJoined(gaps[0], tokens[1..], gaps[1..]);
      assert Joined(tokens, gaps) == tokens[0] + (gaps[0] + rest);
      if gaps[0] == [] {
        assert |tokens| == 1;
        assert rest == [];
        assert gaps[0] + rest == [];
      } else {
        assert (gaps[0] + rest)[0] == gaps[0][0];
      }
      SplitWordThen(tokens[0], gaps[0] + rest);
    }
  }

  /** The tokens of a line, glued together, are its non-whitespace characters: splitting drops whitespace and nothing else. */
  lemma {:induction false} ConcatSplitIsNonWhitespace(s: string)
    ensures Concat(SplitWhitespace(s)) == NonWhitespace(s)
    decreases |s|
  {
    if s != [] {
      if IsWhitespace(s[0]) {
        ConcatSplitIsNonWhitespace(s[1..]);
      } else {
        var n := WordLength(s);
        ConcatSplitIsNonWhitespace(s[n..]);
        NonWhitespacePrefix(s, n);
        assert Concat([s[..n]] + SplitWhitespace(s[n..])) == s[..n] + Concat(SplitWhitespace(s[n..]));
      }
    }
  }

  /** Dropping whitespace from a string whose first `n` characters are not whitespace keeps those `n` characters. */
  lemma {:induction false} NonWhitespacePrefix(s: string, n: nat)
    requires n <= |s|
    requires forall i :: 0 <= i < n ==> !IsWhitespace(s[i])
    ensures NonWhitespace(s) == s[..n] + NonWhitespace(s[n..])
    decreases n
  {
    if n > 0 {
      NonWhitespacePrefix(s[1..], n - 1);
      assert s[1..][n - 1..] == s[n..];
      assert s[..n] == [s[0]] + s[1..][..n - 1];
    }
  }

  // ---------------------------------------------------------------------------
  // Lemmas about the argument-count message
  // ---------------------------------------------------------------------------

  /** Reading back the decimal rendering gives the number. */
  lemma {:induction false} DecimalRoundTrip(n: nat)
    ensures DecimalValue(DecimalString(n)) == n
    decreases n
  {
    if n >= 10 {
      DecimalRoundTrip(n / 10);
      var s := DecimalString(n);
      assert s[..|s| - 1] == DecimalString(n / 10);
    }
  }

  /**
   * The message says "Expecting <n> arguments" with `n` in decimal (always the
   * plural "arguments"), so distinct counts give distinct messages.
   */
  lemma InvalidArgCountMessage(n: u8)
    ensures InvalidArgCount(n).InvalidStatement?
    ensures var m := InvalidArgCount(n).reason;
      && |m| > 20
      && m[..10] == "Expecting "
      && m[|m| - 10..] == " arguments"
      && (forall i :: 10 <= i < |m| - 10 ==> IsDigit(m[i]))
      && DecimalValue(m[10..|m| - 10]) == n as nat
  {
    var d := DecimalString(n as nat);
    var m := "Expecting " + d + " arguments";
    assert m[10..|m| - 10] == d;
    DecimalRoundTrip(n as nat);
  }

  /** The two messages the parser can produce, spelled out. */
  lemma InvalidArgCountExamples()
    ensures InvalidArgCount(2) == InvalidStatement("Expecting 2 arguments")
    ensures InvalidArgCount(1) == InvalidStatement("Expecting 1 arguments")
  {
  }

  // ---------------------------------------------------------------------------
  // Lemmas about parsing
  // ---------------------------------------------------------------------------

  /** Empty or all-whitespace input, and only that, is an empty statement. */
  lemma ParseEmptyIffBlank(text: string)
    ensures Parse(text) == Err(EmptyStatement) <==> IsBlank(text)
  {
    SplitEmptyIffBlank(text);
  }

  /** The characters that lower-case to a given lower-case ASCII letter: the letter and its capital. */
  lemma LowerAsciiIs(c: char, l: char)
    requires 'a' <= l <= 'z'
    ensures LowerAscii(c) == l <==> c == l || c as int == l as int - 32
  {
  }

  /** The spellings that lower-case to "set": exactly the eight case variants. */
  lemma SetSpellings(w: string)
    ensures Lowercase(w) == "set" <==>
      |w| == 3 && (w[0] == 's' || w[0] == 'S') && (w[1] == 'e' || w[1] == 'E') && (w[2] == 't' || w[2] == 'T')
  {
    if |w| == 3 {
      LowerAsciiIs(w[0], 's');
      LowerAsciiIs(w[1], 'e');
      LowerAsciiIs(w[2], 't');
      assert Lowercase(w) == "set" <==> LowerAscii(w[0]) == 's' && LowerAscii(w[1]) == 'e' && LowerAscii(w[2]) == 't';
    }
  }

  /** The spellings that lower-case to "get": exactly the eight case variants. */
  lemma GetSpellings(w: string)
    ensures Lowercase(w) == "get" <==>
      |w| == 3 && (w[0] == 'g' || w[0] == 'G') && (w[1] == 'e' || w[1] == 'E') && (w[2] == 't' || w[2] == 'T')
  {
    if |w| == 3 {
      LowerAsciiIs(w[0], 'g');
      LowerAsciiIs(w[1], 'e');
      LowerAsciiIs(w[2], 't');
      assert Lowercase(w) == "get" <==> LowerAscii(w[0]) == 'g' && LowerAscii(w[1]) == 'e' && LowerAscii(w[2]) == 't';
    }
  }

  /** The keyword is matched case-insensitively: two spellings that lower-case alike parse alike, whatever follows. */
  lemma KeywordCaseInsensitive(w1: string, w2: string, rest: string)
    requires IsWord(w1) && IsWord(w2) && Lowercase(w1) == Lowercase(w2)
    requires rest == [] || IsWhitespace(rest[0])
    ensures Parse(w1 + rest) == Parse(w2 + rest)
  {
    SplitWordThen(w1, rest);
    SplitWordThen(w2, rest);
  }

  /** `set` with exactly two further tokens yields them verbatim; any other count is the two-argument error. */
  lemma ParseSetArity(text: string)
    requires SplitWhitespace(text) != [] && Lowercase(SplitWhitespace(text)[0]) == "set"
    ensures var tokens := SplitWhitespace(text);
      Parse(text) == if |tokens| == 3 then Ok(Set(tokens[1], tokens[2]))
                     else Err(InvalidStatement("Expecting 2 arguments"))
  {
    InvalidArgCountExamples();
  }

  /** `get` with exactly one further token yields it verbatim; any other count is the one-argument error. */
  lemma ParseGetArity(text: string)
    requires SplitWhitespace(text) != [] && Lowercase(SplitWhitespace(text)[0]) == "get"
    ensures var tokens := SplitWhitespace(text);
      Parse(text) == if |tokens| == 2 then Ok(Get(tokens[1]))
                     else Err(InvalidStatement("Expecting 1 arguments"))
  {
    InvalidArgCountExamples();
  }

  /** Any first token other than a spelling of set or get, and only that, is an unknown command. */
  lemma ParseUnknownIff(text: string)
    ensures Parse(text) == Err(UnknownCommand) <==>
      var tokens := SplitWhitespace(text);
      tokens != [] && Lowercase(tokens[0]) != "set" && Lowercase(tokens[0]) != "get"
  {
  }

  /** Every key and value the parser returns is a non-empty token free of whitespace. */
  lemma ParsedFieldsAreWords(text: string)
    requires Parse(text).Ok?
    ensures IsWord(Parse(text).value.key)
    ensures Parse(text).value.Set? ==> IsWord(Parse(text).value.value)
  {
  }

  /** A word, a non-empty gap, and then anything: the word is the first token. */
  lemma SplitWordGap(w: string, gap: string, rest: string)
    requires IsWord(w) && IsBlank(gap) && gap != []
    ensures SplitWhitespace(w + gap + rest) == [w] + SplitWhitespace(rest)
  {
    assert w + gap + rest == w + (gap + rest);
    assert (gap + rest)[0] == gap[0];
    SplitWordThen(w, gap + rest);
    SplitSkipsLeadingBlank(gap, rest);
  }

  /** A last word with only whitespace after it is the last token. */
  lemma SplitLastWord(w: string, trail: string)
    requires IsWord(w) && IsBlank(trail)
    ensures SplitWhitespace(w + trail) == [w]
  {
    SplitSkipsTrailingBlank(w, trail);
    assert w == w + [];
    SplitWordThen(w, []);
  }

  /** The tokens of a three-word line are its three words. */
  lemma SplitThreeWords(lead: string, w1: string, sep1: string, w2: string, sep2: string, w3: string, trail: string)
    requires IsBlank(lead) && IsBlank(trail)
    requires IsBlank(sep1) && sep1 != [] && IsBlank(sep2) && sep2 != []
    requires IsWord(w1) && IsWord(w2) && IsWord(w3)
    ensures SplitWhitespace(lead + (w1 + sep1 + (w2 + sep2 + (w3 + trail)))) == [w1, w2, w3]
  {
    var tail := w3 + trail;
    var middle := w2 + sep2 + tail;
    SplitSkipsLeadingBlank(lead, w1 + sep1 + middle);
    SplitWordGap(w1, sep1, middle);
    SplitWordGap(w2, sep2, tail);
    SplitLastWord(w3, trail);
  }

  /** The tokens of a two-word line are its two words. */
  lemma SplitTwoWords(lead: string, w1: string, sep: string, w2: string, trail: string)
    requires IsBlank(lead) && IsBlank(trail) && IsBlank(sep) && sep != []
    requires IsWord(w1) && IsWord(w2)
    ensures SplitWhitespace(lead + (w1 + sep + (w2 + trail))) == [w1, w2]
  {
    var tail := w2 + trail;
    SplitSkipsLeadingBlank(lead, w1 + sep + tail);
    SplitWordGap(w1, sep, tail);
    SplitLastWord(w2, trail);
  }

  /** A well-formed set line, whatever its spacing and keyword case, parses to that key and value. */
  lemma ParseSetLine(lead: string, keyword: string, sep1: string, key: string, sep2: string, value: string, trail: string)
    requires IsBlank(lead) && IsBlank(trail)
    requires IsBlank(sep1) && sep1 != [] && IsBlank(sep2) && sep2 != []
    requires IsWord(keyword) && Lowercase(keyword) == "set"
    requires IsWord(key) && IsWord(value)
    ensures Parse(lead + (keyword + sep1 + (key + sep2 + (value + trail)))) == Ok(Set(key, value))
  {
    var line := lead + (keyword + sep1 + (key + sep2 + (value + trail)));
    SplitThreeWords(lead, keyword, sep1, key, sep2, value, trail);
    ParseSetArity(line);
  }

  /** A well-formed get line, whatever its spacing and keyword case, parses to that key. */
  lemma ParseGetLine(lead: string, keyword: string, sep: string, key: string, trail: string)
    requires IsBlank(lead) && IsBlank(trail) && IsBlank(sep) && sep != []
    requires IsWord(keyword) && Lowercase(keyword) == "get"
    requires IsWord(key)
    ensures Parse(lead + (keyword + sep + (key + trail))) == Ok(Get(key))
  {
    var line := lead + (keyword + sep + (key + trail));
    SplitTwoWords(lead, keyword, sep, key, trail);
    ParseGetArity(line);
  }

  /** Whitespace before and after a line does not change how it parses. */
  lemma ParseIgnoresSurroundingBlanks(lead: string, s: string, trail: string)
    requires IsBlank(lead) && IsBlank(trail)
    ensures Parse(lead + s + trail) == Parse(s)
  {
    assert lead + s + trail == lead + (s + trail);
    SplitSkipsLeadingBlank(lead, s + trail);
    SplitSkipsTrailingBlank(s, trail);
  }

  /**
   * Only the tokens matter: a line laid out with any whitespace runs parses
   * like the same tokens separated by single spaces.
   */
  lemma ParseIgnoresSpacing(lead: string, tokens: seq<string>, gaps: seq<string>)
    requires IsBlank(lead)
    requires |gaps| == |tokens| && ValidGaps(gaps)
    requires forall i :: 0 <= i < |tokens| ==> IsWord(tokens[i])
    ensures Parse(lead + Joined(tokens, gaps)) == Parse(Canonical(tokens))
  {
    SplitJoined(lead, tokens, gaps);
    SplitJoined([], tokens, SingleSpaces(|tokens|));
    assert [] + Canonical(tokens) == Canonical(tokens);
    ParseDependsOnlyOnTokens(lead + Joined(tokens, gaps), Canonical(tokens));
  }

  /** Two lines with the same tokens parse alike. */
  lemma ParseDependsOnlyOnTokens(a: string, b: string)
    requires SplitWhitespace(a) == SplitWhitespace(b)
    ensures Parse(a) == Parse(b)
  {
  }

  /** Printable ASCII characters other than space are not whitespace. */
  lemma PrintableWord(s: string)
    requires s != [] && forall i :: 0 <= i < |s| ==> '!' <= s[i] <= '~'
    ensures IsWord(s)
  {
  }

  /** The unit test `simple_set_foo_bar`. */
  lemma ParseSetFooBar()
    ensures Parse("SET foo bar") == Ok(Set("foo", "bar"))
  {
    PrintableWord("SET");
    PrintableWord("foo");
    PrintableWord("bar");
    SetSpellings("SET");
    assert "" + ("SET" + " " + ("foo" + " " + ("bar" + ""))) == "SET foo bar";
    ParseSetLine("", "SET", " ", "foo", " ", "bar", "");
  }

  /** The unit test `simple_set_spam_eggs`. */
  lemma ParseSetSpamEggs()
    ensures Parse("SET spam eggs") == Ok(Set("spam", "eggs"))
  {
    PrintableWord("SET");
    PrintableWord("spam");
    PrintableWord("eggs");
    SetSpellings("SET");
    assert "" + ("SET" + " " + ("spam" + " " + ("eggs" + ""))) == "SET spam eggs";
    ParseSetLine("", "SET", " ", "spam", " ", "eggs", "");
  }

  /** The unit test `set_case_unsensitive`. */
  lemma ParseSetMixedCase()
    ensures Parse("Set foo bar") == Ok(Set("foo", "bar"))
  {
    PrintableWord("Set");
    PrintableWord("foo");
    PrintableWord("bar");
    SetSpellings("Set");
    assert "" + ("Set" + " " + ("foo" + " " + ("bar" + ""))) == "Set foo bar";
    ParseSetLine("", "Set", " ", "foo", " ", "bar", "");
  }

  /** The unit test `set_starts_with_whitespace`. */
  lemma ParseSetLeadingSpace()
    ensures Parse(" set foo bar") == Ok(Set("foo", "bar"))
  {
    PrintableWord("set");
    PrintableWord("foo");
    PrintableWord("bar");
    SetSpellings("set");
    assert " " + ("set" + " " + ("foo" + " " + ("bar" + ""))) == " set foo bar";
    ParseSetLine(" ", "set", " ", "foo", " ", "bar", "");
  }

  /** The unit test `set_ends_with_whitespace`. */
  lemma ParseSetTrailingSpace()
    ensures Parse("set foo bar ") == Ok(Set("foo", "bar"))
  {
    PrintableWord("set");
    PrintableWord("foo");
    PrintableWord("bar");
    SetSpellings("set");
    assert "" + ("set" + " " + ("foo" + " " + ("bar" + " "))) == "set foo bar ";
    ParseSetLine("", "set", " ", "foo", " ", "bar", " ");
  }

  /** The unit test `simple_get_foo_bar`. */
  lemma ParseGetFoo()
    ensures Parse("GET foo") == Ok(Get("foo"))
  {
    PrintableWord("GET");
    PrintableWord("foo");
    GetSpellings("GET");
    assert "" + ("GET" + " " + ("foo" + "")) == "GET foo";
    ParseGetLine("", "GET", " ", "foo", "");
  }

  /** The unit test `simple_get_spam`. */
  lemma ParseGetSpam()
    ensures Parse("GET spam") == Ok(Get("spam"))
  {
    PrintableWord("GET");
    PrintableWord("spam");
    GetSpellings("GET");
    assert "" + ("GET" + " " + ("spam" + "")) == "GET spam";
    ParseGetLine("", "GET", " ", "spam", "");
  }

  /** The unit test `empty_string_returns_empty_statement`. */
  lemma ParseEmptyLine()
    ensures Parse("") == Err(EmptyStatement)
  {
  }

  /** The unit test `set_no_args_returns_invalid_err`. */
  lemma ParseSetNoArgs()
    ensures Parse("set") == Err(InvalidStatement("Expecting 2 arguments"))
  {
    PrintableWord("set");
    SplitLastWord("set", "");
    assert "set" + "" == "set";
    ParseSetArity("set");
  }

  /** The unit tests `set_only_one_arg_returns_invalid_err` and `set_more_than_2_args_returns_invalid_err` (both send "set foo"). */
  lemma ParseSetOneArg()
    ensures Parse("set foo") == Err(InvalidStatement("Expecting 2 arguments"))
  {
    PrintableWord("set");
    PrintableWord("foo");
    assert "" + ("set" + " " + ("foo" + "")) == "set foo";
    SplitTwoWords("", "set", " ", "foo", "");
    ParseSetArity("set foo");
  }

}
