/** The splitting rules as a scanner that consumes one token at a time.

    The scanner is in one of four modes. In `Normal` it builds the current
    statement; the other three modes are the local buffers of the two reading
    loops of the splitter: a line comment or a meta-command being read up to the
    end of the line, and a quoted literal being read up to its closing quote.
    `Split` is what the splitter returns for a whole script. */
module SplitterSpec {
  import opened Tokenizer

  /** Java's `trim().isEmpty()`: no character above U+0020. */
  predicate Blank(s: string) {
    forall k :: 0 <= k < |s| ==> s[k] <= ' '
  }

  /** A statement is kept exactly when it is not blank. */
  function IsValidStatement(statement: string): (valid: bool)
    ensures valid <==> exists k :: 0 <= k < |statement| && statement[k] > ' '
  {
    !Blank(statement)
  }

  /** The characters of the regular-expression class `\s`. */
  predicate IsWhitespace(c: char) {
    c == ' ' || c == '\t' || c == '\n' || c == '\U{B}' || c == '\U{C}' || c == '\r'
  }

  predicate EndsWith(s: string, suffix: string) {
    |suffix| <= |s| && s[|s| - |suffix|..] == suffix
  }

  /** The whole statement matches `.*\s--`: it ends with `--` right after a
      whitespace character. */
  predicate StartsComment(statement: string) {
    |statement| >= 3 && statement[|statement| - 2..] == "--" && IsWhitespace(statement[|statement| - 3])
  }

  /** The whole quoted text matches `.*[^\\].`: its next-to-last character
      exists and is not a backslash. */
  predicate LastCharNotEscaped(quoted: string) {
    |quoted| >= 2 && quoted[|quoted| - 2] != '\\'
  }

  /** The quoted text, grown by one token, is closed by the quote it was opened with. */
  predicate ClosesQuote(quoted: string, quote: string) {
    EndsWith(quoted, quote) && LastCharNotEscaped(quoted)
  }

  /** Java's `String.trim()`: the text without its leading and trailing
      characters at or below U+0020. */
  function Trim(s: string): string {
    TrimEnd(TrimStart(s))
  }

  function TrimStart(s: string): string {
    if s == [] || s[0] > ' ' then s else TrimStart(s[1..])
  }

  function TrimEnd(s: string): string {
    if s == [] || s[|s| - 1] > ' ' then s else TrimEnd(s[..|s| - 1])
  }

  lemma {:induction false} TrimStartEmpty(s: string)
    ensures TrimStart(s) == [] <==> Blank(s)
    ensures TrimStart(s) != [] ==> TrimStart(s)[0] > ' '
    decreases |s|
  {
    if s != [] && s[0] <= ' ' {
      TrimStartEmpty(s[1..]);
      assert forall k :: 1 <= k < |s| ==> s[k] == s[1..][k - 1];
    }
  }

  lemma {:induction false} TrimEndKeepsFirst(s: string)
    requires s != [] && s[0] > ' '
    ensures TrimEnd(s) != []
    decreases |s|
  {
    if s[|s| - 1] <= ' ' {
      TrimEndKeepsFirst(s[..|s| - 1]);
    }
  }

  /** Blankness is Java's `trim().isEmpty()` (and `trim().length() > 0` is its
      negation). */
  lemma TrimEmptyIffBlank(s: string)
    ensures Trim(s) == [] <==> Blank(s)
  {
    TrimStartEmpty(s);
    if TrimStart(s) != [] {
      TrimEndKeepsFirst(TrimStart(s));
    }
  }

  /** The regular expression `\s--` matched against a whole text. */
  predicate IsSpaceDashDash(s: string) {
    |s| == 3 && IsWhitespace(s[0]) && s[1] == '-' && s[2] == '-'
  }

  /** The regular expression `.*\s--` with DOTALL matched against a whole text:
      the leading `.*` skips any number of characters. */
  predicate MatchesCommentPattern(s: string)
    decreases |s|
  {
    IsSpaceDashDash(s) || (s != [] && MatchesCommentPattern(s[1..]))
  }

  /** The index check is the comment pattern. */
  lemma {:induction false} StartsCommentMatchesPattern(s: string)
    ensures StartsComment(s) <==> MatchesCommentPattern(s)
    decreases |s|
  {
    if |s| > 3 {
      StartsCommentMatchesPattern(s[1..]);
      var t := s[1..];
      assert t[|t| - 2..] == s[|s| - 2..] && t[|t| - 3] == s[|s| - 3];
    } else if |s| == 3 {
      assert !MatchesCommentPattern(s[1..]) by {
        NoShortMatch(s[1..]);
      }
      assert s[|s| - 2..] == [s[1], s[2]];
    } else {
      NoShortMatch(s);
    }
  }

  lemma {:induction false} NoShortMatch(s: string)
    requires |s| < 3
    ensures !MatchesCommentPattern(s)
    decreases |s|
  {
    if s != [] {
      NoShortMatch(s[1..]);
    }
  }

  /** The regular expression `[^\\].` matched against a whole text. */
  predicate IsUnescapedPair(s: string) {
    |s| == 2 && s[0] != '\\'
  }

  /** The regular expression `.*[^\\].` with DOTALL matched against a whole
      text. */
  predicate MatchesUnescapedPattern(s: string)
    decreases |s|
  {
    IsUnescapedPair(s) || (s != [] && MatchesUnescapedPattern(s[1..]))
  }

  /** The index check is the escape pattern. */
  lemma {:induction false} LastCharNotEscapedMatchesPattern(s: string)
    ensures LastCharNotEscaped(s) <==> MatchesUnescapedPattern(s)
    decreases |s|
  {
    if |s| > 2 {
      LastCharNotEscapedMatchesPattern(s[1..]);
      assert s[1..][|s| - 3] == s[|s| - 2];
    } else if |s| == 2 {
      assert !MatchesUnescapedPattern(s[1..]) by {
        assert !MatchesUnescapedPattern(s[2..]);
      }
    } else if |s| == 1 {
      assert !MatchesUnescapedPattern(s[1..]);
    }
  }

  /** Where the reading of a line stops, starting at token `i` with `line`
      already read: just after the first token that makes the line end with a
      newline, or at the end of the tokens. */
  function LineEnd(tokens: seq<string>, i: nat, line: string): (j: nat)
    requires i <= |tokens|
    ensures i <= j <= |tokens|
    ensures i < |tokens| ==> i < j
    decreases |tokens| - i
  {
    if i == |tokens| then i
    else
      var grown := line + tokens[i];
      if EndsWith(grown, "\n") then i + 1 else LineEnd(tokens, i + 1, grown)
  }

  /** Where the reading of a quoted literal stops, starting at token `i` with
      `quoted` already read: just after the first token that closes the quote,
      or at the end of the tokens. */
  function QuoteEnd(tokens: seq<string>, i: nat, quote: string, quoted: string): (j: nat)
    requires i <= |tokens|
    ensures i <= j <= |tokens|
    ensures i < |tokens| ==> i < j
    decreases |tokens| - i
  {
    if i == |tokens| then i
    else
      var grown := quoted + tokens[i];
      if ClosesQuote(grown, quote) then i + 1 else QuoteEnd(tokens, i + 1, quote, grown)
  }

  /** The line reader stops just after a token that makes the text read end
      with a newline, unless the tokens run out first. */
  lemma {:induction false} LineEndEndsLine(tokens: seq<string>, i: nat, line: string)
    requires i <= |tokens|
    ensures var j := LineEnd(tokens, i, line);
      j == |tokens| || EndsWith(line + Concat(tokens[i..j]), "\n")
    decreases |tokens| - i
  {
    if i < |tokens| {
      var grown := line + tokens[i];
      var j := LineEnd(tokens, i, line);
      if EndsWith(grown, "\n") {
        ConcatCons(line, tokens, i, i + 1);
      } else {
        LineEndEndsLine(tokens, i + 1, grown);
        ConcatCons(line, tokens, i, j);
      }
    }
  }

  /** The line reader stops at the first such token: before it, the text read
      never ends with a newline. */
  lemma {:induction false} LineEndIsFirstNewline(tokens: seq<string>, i: nat, line: string, k: nat)
    requires i <= |tokens| && i < k < LineEnd(tokens, i, line)
    ensures !EndsWith(line + Concat(tokens[i..k]), "\n")
    decreases |tokens| - i
  {
    var grown := line + tokens[i];
    ConcatCons(line, tokens, i, k);
    if k > i + 1 {
      LineEndIsFirstNewline(tokens, i + 1, grown, k);
    } else {
      assert tokens[i + 1..k] == [];
    }
  }

  /** The quote reader stops just after a token that closes the quote, unless
      the tokens run out first. */
  lemma {:induction false} QuoteEndClosesQuote(tokens: seq<string>, i: nat, quote: string, quoted: string)
    requires i <= |tokens|
    ensures var j := QuoteEnd(tokens, i, quote, quoted);
      j == |tokens| || ClosesQuote(quoted + Concat(tokens[i..j]), quote)
    decreases |tokens| - i
  {
    if i < |tokens| {
      var grown := quoted + tokens[i];
      var j := QuoteEnd(tokens, i, quote, quoted);
      if ClosesQuote(grown, quote) {
        ConcatCons(quoted, tokens, i, i + 1);
      } else {
        QuoteEndClosesQuote(tokens, i + 1, quote, grown);
        ConcatCons(quoted, tokens, i, j);
      }
    }
  }

  /** The quote reader stops at the first such token: before it, the quoted
      text is never closed. */
  lemma {:induction false} QuoteEndIsFirstClose(tokens: seq<string>, i: nat, quote: string, quoted: string, k: nat)
    requires i <= |tokens| && i < k < QuoteEnd(tokens, i, quote, quoted)
    ensures !ClosesQuote(quoted + Concat(tokens[i..k]), quote)
    decreases |tokens| - i
  {
    var grown := quoted + tokens[i];
    ConcatCons(quoted, tokens, i, k);
    if k > i + 1 {
      QuoteEndIsFirstClose(tokens, i + 1, quote, grown, k);
    } else {
      assert tokens[i + 1..k] == [];
    }
  }

  datatype Mode =
    | Normal
    | InLineComment(line: string)
    | InQuote(quote: string, quoted: string)
    | InMetaCommand(line: string)

  /** The scanner: its mode and the statement built so far. */
  datatype Scanner = Scanner(mode: Mode, statement: string)

  const Start := Scanner(Normal, "")

  /** What the mode has read but not yet added to the statement. */
  function Pending(mode: Mode): string {
    match mode
    case Normal => ""
    case InLineComment(line) => line
    case InQuote(_, quoted) => quoted
    case InMetaCommand(line) => line
  }

  /** All text read since the statement was last closed. */
  function Text(sc: Scanner): string {
    sc.statement + Pending(sc.mode)
  }

  /** The statements a closing emits: the text, unless it is blank. */
  function Emit(statement: string): (out: seq<string>)
    ensures |out| <= 1
    ensures out == [] <==> Blank(statement)
    ensures forall t :: t in out ==> t == statement
  {
    if IsValidStatement(statement) then [statement] else []
  }

  lemma EndsWithExtend(prefix: string, s: string, suffix: string)
    requires EndsWith(s, suffix)
    ensures EndsWith(prefix + s, suffix)
  {
    assert (prefix + s)[|prefix + s| - |suffix|..] == s[|s| - |suffix|..];
  }

  /** The scanner after one token, with what it emits. */
  function Feed(sc: Scanner, token: string): (Scanner, seq<string>)
  {
    match sc.mode
    case Normal =>
      if token == ";" then (Start, Emit(sc.statement))
      else if token == "-" then
        var statement := sc.statement + token;
        (Scanner(if StartsComment(statement) then InLineComment("") else Normal, statement), [])
      else if token == "\"" || token == "'" then
        (Scanner(InQuote(token, token), sc.statement), [])
      else if token == "!" && Blank(sc.statement) then
        (Scanner(InMetaCommand(""), sc.statement + token), [])
      else
        (Scanner(Normal, sc.statement + token), [])
    case InLineComment(line) =>
      var grown := line + token;
      if EndsWith(grown, "\n") then (Scanner(Normal, sc.statement + grown), [])
      else (Scanner(InLineComment(grown), sc.statement), [])
    case InQuote(quote, quoted) =>
      var grown := quoted + token;
      if ClosesQuote(grown, quote) then (Scanner(Normal, sc.statement + grown), [])
      else (Scanner(InQuote(quote, grown), sc.statement), [])
    case InMetaCommand(line) =>
      var grown := line + token;
      if EndsWith(grown, "\n") then (Start, Emit(sc.statement + grown))
      else (Scanner(InMetaCommand(grown), sc.statement), [])
  }

  /** One token either emits nothing and adds its text to what has been read,
      or closes the statement and starts afresh: at a top-level `;`, which is
      itself dropped, or at the newline that ends a meta-command line, which is
      kept. */
  lemma FeedCases(sc: Scanner, token: string)
    ensures var (next, out) := Feed(sc, token);
      || (out == [] && Text(next) == Text(sc) + token)
      || (next == Start && sc.mode == Normal && token == ";" && out == Emit(Text(sc)))
      || (next == Start && sc.mode.InMetaCommand? && EndsWith(Text(sc) + token, "\n") && out == Emit(Text(sc) + token))
  {
    match sc.mode
    case Normal =>
      assert Text(sc) == sc.statement;
    case InLineComment(line) =>
    case InQuote(quote, quoted) =>
    case InMetaCommand(line) =>
      var grown := line + token;
      assert sc.statement + grown == Text(sc) + token;
      if EndsWith(grown, "\n") {
        EndsWithExtend(sc.statement, grown, "\n");
      }
  }

  /** The statements emitted while consuming `tokens`, then at the end of the
      input (where whatever was read is emitted unless blank). */
  function Finish(sc: Scanner, tokens: seq<string>): (out: seq<string>)
    ensures forall t :: t in out ==> IsValidStatement(t)
    decreases |tokens|
  {
    if tokens == [] then Emit(Text(sc))
    else
      var step := Feed(sc, tokens[0]);
      step.1 + Finish(step.0, tokens[1..])
  }

  /** The scanner after consuming `tokens` (the end of the input not yet seen). */
  function After(sc: Scanner, tokens: seq<string>): Scanner
    decreases |tokens|
  {
    if tokens == [] then sc else After(Feed(sc, tokens[0]).0, tokens[1..])
  }

  /** What the scanner emits while consuming `tokens` (nothing is emitted for
      the end of the input). */
  function Emitted(sc: Scanner, tokens: seq<string>): (out: seq<string>)
    ensures forall t :: t in out ==> IsValidStatement(t)
    decreases |tokens|
  {
    if tokens == [] then []
    else
      var step := Feed(sc, tokens[0]);
      step.1 + Emitted(step.0, tokens[1..])
  }

  /** The statements the splitter returns for a script. */
  function Split(script: string): (out: seq<string>)
    ensures forall t :: t in out ==> IsValidStatement(t)
  {
    Finish(Start, Tokenize(script))
  }

  /** Consuming tokens in two parts: what the first part emits, then the rest
      from where the first part left the scanner. */
  lemma {:induction false} FinishAppend(sc: Scanner, xs: seq<string>, ys: seq<string>)
    ensures Finish(sc, xs + ys) == Emitted(sc, xs) + Finish(After(sc, xs), ys)
    decreases |xs|
  {
    if xs == [] {
      assert xs + ys == ys;
    } else {
      assert (xs + ys)[0] == xs[0];
      assert (xs + ys)[1..] == xs[1..] + ys;
      var step := Feed(sc, xs[0]);
      FinishAppend(step.0, xs[1..], ys);
      assert step.1 + (Emitted(step.0, xs[1..]) + Finish(After(step.0, xs[1..]), ys))
          == (step.1 + Emitted(step.0, xs[1..])) + Finish(After(step.0, xs[1..]), ys);
    }
  }

  lemma {:induction false} AfterAppend(sc: Scanner, xs: seq<string>, ys: seq<string>)
    ensures After(sc, xs + ys) == After(After(sc, xs), ys)
    decreases |xs|
  {
    if xs == [] {
      assert xs + ys == ys;
    } else {
      assert (xs + ys)[0] == xs[0];
      assert (xs + ys)[1..] == xs[1..] + ys;
      AfterAppend(Feed(sc, xs[0]).0, xs[1..], ys);
    }
  }

  lemma {:induction false} EmittedAppend(sc: Scanner, xs: seq<string>, ys: seq<string>)
    ensures Emitted(sc, xs + ys) == Emitted(sc, xs) + Emitted(After(sc, xs), ys)
    decreases |xs|
  {
    if xs == [] {
      assert xs + ys == ys;
    } else {
      assert (xs + ys)[0] == xs[0];
      assert (xs + ys)[1..] == xs[1..] + ys;
      var step := Feed(sc, xs[0]);
      EmittedAppend(step.0, xs[1..], ys);
      assert step.1 + (Emitted(step.0, xs[1..]) + Emitted(After(step.0, xs[1..]), ys))
          == (step.1 + Emitted(step.0, xs[1..])) + Emitted(After(step.0, xs[1..]), ys);
    }
  }

  /** The scanner's first step on the remaining tokens. */
  lemma FinishStep(sc: Scanner, tokens: seq<string>, i: nat)
    requires i < |tokens|
    ensures var step := Feed(sc, tokens[i]);
      Finish(sc, tokens[i..]) == step.1 + Finish(step.0, tokens[i + 1..])
  {
    assert tokens[i..][0] == tokens[i] && tokens[i..][1..] == tokens[i + 1..];
  }

  /** In line-comment mode the scanner reads exactly what the line reader reads
      and adds it to the statement. */
  lemma {:induction false} LineCommentReadsLine(tokens: seq<string>, i: nat, line: string, statement: string)
    requires i <= |tokens|
    ensures var j := LineEnd(tokens, i, line);
      Finish(Scanner(InLineComment(line), statement), tokens[i..])
      == Finish(Scanner(Normal, statement + (line + Concat(tokens[i..j]))), tokens[j..])
    decreases |tokens| - i
  {
    var j := LineEnd(tokens, i, line);
    if i == |tokens| {
      assert tokens[i..] == [] && tokens[i..i] == [];
      assert line + Concat([]) == line;
      assert Text(Scanner(InLineComment(line), statement)) == statement + line;
      assert Text(Scanner(Normal, statement + line)) == statement + line;
    } else {
      var grown := line + tokens[i];
      var sc := Scanner(InLineComment(line), statement);
      assert line + Concat(tokens[i..j]) == grown + Concat(tokens[i + 1..j]) by {
        ConcatCons(line, tokens, i, j);
      }
      if EndsWith(grown, "\n") {
        assert Finish(sc, tokens[i..]) == Finish(Scanner(Normal, statement + grown), tokens[i + 1..]) by {
          FinishStep(sc, tokens, i);
        }
        assert grown + Concat(tokens[i + 1..j]) == grown by {
          assert tokens[i + 1..j] == [];
        }
      } else {
        assert Finish(sc, tokens[i..]) == Finish(Scanner(InLineComment(grown), statement), tokens[i + 1..]) by {
          FinishStep(sc, tokens, i);
        }
        LineCommentReadsLine(tokens, i + 1, grown, statement);
      }
    }
  }

  /** In quote mode the scanner reads exactly what the quote reader reads and
      adds it to the statement. */
  lemma {:induction false} QuoteReadsLiteral(tokens: seq<string>, i: nat, quote: string, quoted: string, statement: string)
    requires i <= |tokens|
    ensures var j := QuoteEnd(tokens, i, quote, quoted);
      Finish(Scanner(InQuote(quote, quoted), statement), tokens[i..])
      == Finish(Scanner(Normal, statement + (quoted + Concat(tokens[i..j]))), tokens[j..])
    decreases |tokens| - i
  {
    var j := QuoteEnd(tokens, i, quote, quoted);
    if i == |tokens| {
      assert tokens[i..] == [] && tokens[i..i] == [];
      assert quoted + Concat([]) == quoted;
      assert Text(Scanner(InQuote(quote, quoted), statement)) == statement + quoted;
      assert Text(Scanner(Normal, statement + quoted)) == statement + quoted;
    } else {
      var grown := quoted + tokens[i];
      var sc := Scanner(InQuote(quote, quoted), statement);
      assert quoted + Concat(tokens[i..j]) == grown + Concat(tokens[i + 1..j]) by {
        ConcatCons(quoted, tokens, i, j);
      }
      if ClosesQuote(grown, quote) {
        assert Finish(sc, tokens[i..]) == Finish(Scanner(Normal, statement + grown), tokens[i + 1..]) by {
          FinishStep(sc, tokens, i);
        }
        assert grown + Concat(tokens[i + 1..j]) == grown by {
          assert tokens[i + 1..j] == [];
        }
      } else {
        assert Finish(sc, tokens[i..]) == Finish(Scanner(InQuote(quote, grown), statement), tokens[i + 1..]) by {
          FinishStep(sc, tokens, i);
        }
        QuoteReadsLiteral(tokens, i + 1, quote, grown, statement);
      }
    }
  }

  /** In meta-command mode the scanner reads exactly what the line reader reads,
      emits the statement with it, and starts afresh. */
  lemma {:induction false} MetaCommandReadsLine(tokens: seq<string>, i: nat, line: string, statement: string)
    requires i <= |tokens|
    ensures var j := LineEnd(tokens, i, line);
      Finish(Scanner(InMetaCommand(line), statement), tokens[i..])
      == Emit(statement + (line + Concat(tokens[i..j]))) + Finish(Start, tokens[j..])
    decreases |tokens| - i
  {
    var j := LineEnd(tokens, i, line);
    if i == |tokens| {
      assert tokens[i..] == [] && tokens[i..i] == [];
      assert line + Concat([]) == line;
      assert Text(Scanner(InMetaCommand(line), statement)) == statement + line;
    } else {
      var grown := line + tokens[i];
      var sc := Scanner(InMetaCommand(line), statement);
      assert line + Concat(tokens[i..j]) == grown + Concat(tokens[i + 1..j]) by {
        ConcatCons(line, tokens, i, j);
      }
      if EndsWith(grown, "\n") {
        assert Finish(sc, tokens[i..]) == Emit(statement + grown) + Finish(Start, tokens[i + 1..]) by {
          FinishStep(sc, tokens, i);
        }
        assert grown + Concat(tokens[i + 1..j]) == grown by {
          assert tokens[i + 1..j] == [];
        }
      } else {
        assert Finish(sc, tokens[i..]) == Finish(Scanner(InMetaCommand(grown), statement), tokens[i + 1..]) by {
          FinishStep(sc, tokens, i);
        }
        MetaCommandReadsLine(tokens, i + 1, grown, statement);
      }
    }
  }

  /** A top-level `;` closes the statement, which is emitted unless blank; the
      `;` itself is dropped. */
  lemma SemicolonCloses(tokens: seq<string>, i: nat, statement: string)
    requires i < |tokens| && tokens[i] == ";"
    ensures Finish(Scanner(Normal, statement), tokens[i..])
      == Emit(statement) + Finish(Start, tokens[i + 1..])
  {
    FinishStep(Scanner(Normal, statement), tokens, i);
  }

  /** A `-` that completes a whitespace-preceded `--` starts a comment: the rest
      of the line, newline included, joins the statement as it is. */
  lemma DashOpensComment(tokens: seq<string>, i: nat, statement: string)
    requires i < |tokens| && tokens[i] == "-" && StartsComment(statement + "-")
    ensures var j := LineEnd(tokens, i + 1, "");
      Finish(Scanner(Normal, statement), tokens[i..])
      == Finish(Scanner(Normal, statement + "-" + Concat(tokens[i + 1..j])), tokens[j..])
  {
    var j := LineEnd(tokens, i + 1, "");
    assert Finish(Scanner(Normal, statement), tokens[i..])
        == Finish(Scanner(InLineComment(""), statement + "-"), tokens[i + 1..]) by {
      FinishStep(Scanner(Normal, statement), tokens, i);
    }
    LineCommentReadsLine(tokens, i + 1, "", statement + "-");
    assert "" + Concat(tokens[i + 1..j]) == Concat(tokens[i + 1..j]);
  }

  /** Any other `-` is ordinary text. */
  lemma DashIsText(tokens: seq<string>, i: nat, statement: string)
    requires i < |tokens| && tokens[i] == "-" && !StartsComment(statement + "-")
    ensures Finish(Scanner(Normal, statement), tokens[i..])
      == Finish(Scanner(Normal, statement + "-"), tokens[i + 1..])
  {
    FinishStep(Scanner(Normal, statement), tokens, i);
  }

  /** A quote character opens a literal: everything up to the closing quote,
      quotes included, joins the statement as it is. */
  lemma QuoteOpensLiteral(tokens: seq<string>, i: nat, statement: string)
    requires i < |tokens| && (tokens[i] == "\"" || tokens[i] == "'")
    ensures var j := QuoteEnd(tokens, i + 1, tokens[i], tokens[i]);
      Finish(Scanner(Normal, statement), tokens[i..])
      == Finish(Scanner(Normal, statement + (tokens[i] + Concat(tokens[i + 1..j]))), tokens[j..])
  {
    assert Finish(Scanner(Normal, statement), tokens[i..])
        == Finish(Scanner(InQuote(tokens[i], tokens[i]), statement), tokens[i + 1..]) by {
      FinishStep(Scanner(Normal, statement), tokens, i);
    }
    QuoteReadsLiteral(tokens, i + 1, tokens[i], tokens[i], statement);
  }

  /** A `!` on a blank statement opens a meta-command: the statement, the `!`
      and the rest of the line are emitted together, and a new statement begins. */
  lemma BangOpensMetaCommand(tokens: seq<string>, i: nat, statement: string)
    requires i < |tokens| && tokens[i] == "!" && Blank(statement)
    ensures var j := LineEnd(tokens, i + 1, "");
      Finish(Scanner(Normal, statement), tokens[i..])
      == Emit(statement + "!" + Concat(tokens[i + 1..j])) + Finish(Start, tokens[j..])
  {
    var j := LineEnd(tokens, i + 1, "");
    assert Finish(Scanner(Normal, statement), tokens[i..])
        == Finish(Scanner(InMetaCommand(""), statement + "!"), tokens[i + 1..]) by {
      FinishStep(Scanner(Normal, statement), tokens, i);
    }
    MetaCommandReadsLine(tokens, i + 1, "", statement + "!");
    assert "" + Concat(tokens[i + 1..j]) == Concat(tokens[i + 1..j]);
  }

  /** Every other token is ordinary text of the statement. */
  lemma OtherTokenIsText(tokens: seq<string>, i: nat, statement: string)
    requires i < |tokens|
    requires tokens[i] != ";" && tokens[i] != "-" && tokens[i] != "\"" && tokens[i] != "'"
    requires !(tokens[i] == "!" && Blank(statement))
    ensures Finish(Scanner(Normal, statement), tokens[i..])
      == Finish(Scanner(Normal, statement + tokens[i]), tokens[i + 1..])
  {
    FinishStep(Scanner(Normal, statement), tokens, i);
  }
}
