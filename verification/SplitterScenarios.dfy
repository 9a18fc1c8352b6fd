/** Worked scripts. A script is given by its tokens, with its words left
    abstract (any run of plain characters), and the splitter is followed along
    it one token at a time; at every top-level step the statement being built
    is the text of a slice of the tokens, which is how the statements come out
    as verbatim pieces of the script. */
module SplitterScenarios {
  import opened Tokenizer
  import opened SplitterSpec
  import opened SplitterProperties

  /** Splitting a slice in two splits its text in two. */
  lemma ConcatSplit(tokens: seq<string>, s: nat, m: nat, e: nat)
    requires s <= m <= e <= |tokens|
    ensures Concat(tokens[s..e]) == Concat(tokens[s..m]) + Concat(tokens[m..e])
  {
    assert tokens[s..e] == tokens[s..m] + tokens[m..e];
    ConcatAppend(tokens[s..m], tokens[m..e]);
  }

  /** A slice starts with the text of its first token. */
  lemma ConcatFirst(tokens: seq<string>, s: nat, e: nat)
    requires s < e <= |tokens|
    ensures Concat(tokens[s..e]) == tokens[s] + Concat(tokens[s + 1..e])
  {
    assert tokens[s..e][0] == tokens[s] && tokens[s..e][1..] == tokens[s + 1..e];
  }

  /** What the splitter returns from token `i` on, at top level, with the
      statement begun at token `s`. */
  function From(tokens: seq<string>, s: nat, i: nat): seq<string>
    requires s <= i <= |tokens|
  {
    Finish(Scanner(Normal, Concat(tokens[s..i])), tokens[i..])
  }

  /** The splitter reads a canonical token sequence from the start. */
  lemma SplitTokens(tokens: seq<string>)
    requires Canonical(tokens)
    ensures Split(Concat(tokens)) == From(tokens, 0, 0)
  {
    TokenizeConcat(tokens);
    assert tokens[0..] == tokens && Concat(tokens[0..0]) == "";
  }

  /** An ordinary token (text, or a `-` that does not start a comment) joins the
      statement that began at token `s`. */
  lemma TextAt(tokens: seq<string>, s: nat, i: nat)
    requires s <= i < |tokens|
    requires var statement := Concat(tokens[s..i]);
      if tokens[i] == "-" then !StartsComment(statement + "-")
      else tokens[i] != ";" && tokens[i] != "\"" && tokens[i] != "'" && !(tokens[i] == "!" && Blank(statement))
    ensures From(tokens, s, i) == From(tokens, s, i + 1)
  {
    ConcatSnoc(tokens, s, i);
    if tokens[i] == "-" {
      DashIsText(tokens, i, Concat(tokens[s..i]));
    } else {
      OtherTokenIsText(tokens, i, Concat(tokens[s..i]));
    }
  }

  /** A `;` closes the statement that began at token `s`. */
  lemma CloseAt(tokens: seq<string>, s: nat, i: nat)
    requires s <= i < |tokens| && tokens[i] == ";"
    ensures From(tokens, s, i) == Emit(Concat(tokens[s..i])) + From(tokens, i + 1, i + 1)
  {
    SemicolonCloses(tokens, i, Concat(tokens[s..i]));
    assert Concat(tokens[i + 1..i + 1]) == "";
  }

  /** A `--` after whitespace takes the rest of the line into the statement. */
  lemma CommentAt(tokens: seq<string>, s: nat, i: nat)
    requires s <= i < |tokens| && tokens[i] == "-" && StartsComment(Concat(tokens[s..i]) + "-")
    ensures From(tokens, s, i) == From(tokens, s, LineEnd(tokens, i + 1, ""))
  {
    var j := LineEnd(tokens, i + 1, "");
    var statement := Concat(tokens[s..i]);
    assert Concat(tokens[s..j]) == statement + "-" + Concat(tokens[i + 1..j]) by {
      ConcatSplit(tokens, s, i + 1, j);
      ConcatSnoc(tokens, s, i);
    }
    DashOpensComment(tokens, i, statement);
  }

  /** A quote takes the whole literal into the statement. */
  lemma QuoteAt(tokens: seq<string>, s: nat, i: nat)
    requires s <= i < |tokens| && (tokens[i] == "\"" || tokens[i] == "'")
    ensures From(tokens, s, i) == From(tokens, s, QuoteEnd(tokens, i + 1, tokens[i], tokens[i]))
  {
    var j := QuoteEnd(tokens, i + 1, tokens[i], tokens[i]);
    QuoteOpensLiteral(tokens, i, Concat(tokens[s..i]));
    assert Concat(tokens[s..j]) == Concat(tokens[s..i]) + (tokens[i] + Concat(tokens[i + 1..j])) by {
      ConcatSplit(tokens, s, i, j);
      ConcatFirst(tokens, i, j);
    }
  }

  /** A `!` on a blank statement emits the meta-command line as a statement. */
  lemma MetaCommandAt(tokens: seq<string>, s: nat, i: nat)
    requires s <= i < |tokens| && tokens[i] == "!" && Blank(Concat(tokens[s..i]))
    ensures var j := LineEnd(tokens, i + 1, "");
      From(tokens, s, i) == Emit(Concat(tokens[s..j])) + From(tokens, j, j)
  {
    var j := LineEnd(tokens, i + 1, "");
    assert From(tokens, s, i)
        == Emit(Concat(tokens[s..i]) + "!" + Concat(tokens[i + 1..j])) + Finish(Start, tokens[j..]) by {
      BangOpensMetaCommand(tokens, i, Concat(tokens[s..i]));
    }
    assert Concat(tokens[s..j]) == Concat(tokens[s..i]) + "!" + Concat(tokens[i + 1..j]) by {
      ConcatSplit(tokens, s, i + 1, j);
      ConcatSnoc(tokens, s, i);
    }
    assert Scanner(Normal, Concat(tokens[j..j])) == Start by {
      assert tokens[j..j] == [];
    }
  }

  /** A `;` after a statement with a visible character emits that statement. */
  lemma CloseWord(tokens: seq<string>, s: nat, i: nat)
    requires s <= i < |tokens| && tokens[i] == ";" && !Blank(Concat(tokens[s..i]))
    ensures From(tokens, s, i) == [Concat(tokens[s..i])] + From(tokens, i + 1, i + 1)
  {
    CloseAt(tokens, s, i);
  }

  /** A `;` after a blank statement emits nothing. */
  lemma CloseBlank(tokens: seq<string>, s: nat, i: nat)
    requires s <= i < |tokens| && tokens[i] == ";" && Blank(Concat(tokens[s..i]))
    ensures From(tokens, s, i) == From(tokens, i + 1, i + 1)
  {
    CloseAt(tokens, s, i);
  }

  /** The end of the input closes the statement that began at token `s`. */
  lemma EndAt(tokens: seq<string>, s: nat)
    requires s <= |tokens|
    ensures From(tokens, s, |tokens|) == Emit(Concat(tokens[s..]))
  {
    assert tokens[|tokens|..] == [] && tokens[s..|tokens|] == tokens[s..];
    assert Text(Scanner(Normal, Concat(tokens[s..]))) == Concat(tokens[s..]);
  }

  /** A token that is plain text wherever it appears at top level. */
  predicate Ordinary(t: string) {
    t != ";" && t != "-" && t != "\"" && t != "'" && t != "!"
  }

  /** A stretch of ordinary tokens joins the statement as it is. */
  lemma {:induction false} TextRun(tokens: seq<string>, s: nat, i: nat, e: nat)
    requires s <= i <= e <= |tokens|
    requires forall m :: i <= m < e ==> Ordinary(tokens[m])
    ensures From(tokens, s, i) == From(tokens, s, e)
    decreases e - i
  {
    if i < e {
      assert Ordinary(tokens[i]);
      TextAt(tokens, s, i);
      TextRun(tokens, s, i + 1, e);
    }
  }

  /** On tokenizer output, a line ends just after its first newline token. */
  lemma {:induction false} LineEndAtNewline(tokens: seq<string>, i: nat, line: string, k: nat)
    requires Canonical(tokens) && i <= k < |tokens| && tokens[k] == "\n"
    requires forall m :: i <= m < k ==> tokens[m] != "\n"
    ensures LineEnd(tokens, i, line) == k + 1
    decreases k - i
  {
    var t := tokens[i];
    var grown := line + t;
    if i == k {
      assert grown[|grown| - 1..] == "\n";
    } else {
      assert IsToken(t) && t != "\n";
      assert t[|t| - 1] != '\n' by {
        if |t| == 1 {
          assert t == [t[0]];
        }
      }
      assert grown[|grown| - 1] == t[|t| - 1];
      LineEndAtNewline(tokens, i + 1, grown, k);
    }
  }

  /** On tokenizer output, a quoted literal ends just after the first token
      that is its quote, when the character before that quote is not a
      backslash. */
  lemma {:induction false} QuoteEndAtQuote(tokens: seq<string>, i: nat, quote: string, quoted: string, k: nat)
    requires Canonical(tokens) && i <= k < |tokens|
    requires (quote == "'" || quote == "\"") && tokens[k] == quote
    requires forall m :: i <= m < k ==> tokens[m] != quote
    requires |quoted| > 0 && (i == k ==> quoted[|quoted| - 1] != '\\')
    requires i < k ==> |tokens[k - 1]| > 0 && tokens[k - 1][|tokens[k - 1]| - 1] != '\\'
    ensures QuoteEnd(tokens, i, quote, quoted) == k + 1
    decreases k - i
  {
    var t := tokens[i];
    var grown := quoted + t;
    if i == k {
      assert ClosesQuote(grown, quote) by {
        assert grown[|grown| - 1..] == quote;
        assert grown[|grown| - 2] == quoted[|quoted| - 1];
      }
    } else {
      assert grown[|grown| - 1] == t[|t| - 1];
      assert !ClosesQuote(grown, quote) by {
        assert IsToken(t) && t != quote;
        assert t[|t| - 1] != quote[0] by {
          if |t| == 1 {
            assert t == [t[0]];
          }
        }
      }
      QuoteEndAtQuote(tokens, i + 1, quote, grown, k);
    }
  }

  /** A text with a character above U+0020 keeps it, whatever is put around it. */
  lemma NotBlankAppend(word: string, other: string)
    requires !Blank(word)
    ensures !Blank(word + other) && !Blank(other + word)
  {
    var k :| 0 <= k < |word| && word[k] > ' ';
    assert (word + other)[k] == word[k];
    assert (other + word)[|other| + k] == word[k];
  }

  /** A slice whose first token has a visible character is not blank. */
  lemma NotBlankSlice(tokens: seq<string>, s: nat, e: nat)
    requires s < e <= |tokens| && !Blank(tokens[s])
    ensures !Blank(Concat(tokens[s..e]))
  {
    ConcatFirst(tokens, s, e);
    NotBlankAppend(tokens[s], Concat(tokens[s + 1..e]));
  }

  lemma RunIsOrdinary(t: string)
    requires IsRun(t)
    ensures Ordinary(t) && t != "\n"
  {
    assert !IsSpecial(t[0]);
  }

  /** The first statement of the documentation example: a word closed by `;`. */
  lemma DocumentationFirst(tokens: seq<string>, foo: string)
    requires 2 <= |tokens| && tokens[0] == foo && tokens[1] == ";" && IsRun(foo)
    ensures From(tokens, 0, 0) == Emit(foo) + From(tokens, 2, 2)
  {
    RunIsOrdinary(foo);
    TextAt(tokens, 0, 0);
    CloseAt(tokens, 0, 1);
    assert Concat(tokens[0..1]) == foo by {
      ConcatFirst(tokens, 0, 1);
      assert tokens[1..1] == [];
    }
  }

  /** A `-` right after a word is text: no `-` precedes it. */
  lemma DashAfterWord(tokens: seq<string>, s: nat, i: nat)
    requires s < i < |tokens| && tokens[i] == "-" && IsRun(tokens[i - 1])
    ensures From(tokens, s, i) == From(tokens, s, i + 1)
  {
    var w := tokens[i - 1];
    assert !StartsComment(Concat(tokens[s..i]) + "-") by {
      ConcatSnoc(tokens, s, i - 1);
      var text := Concat(tokens[s..i - 1]) + w + "-";
      assert text[|text| - 2] == w[|w| - 1];
      assert !IsSpecial(w[|w| - 1]);
    }
    TextAt(tokens, s, i);
  }

  /** After a word and `-`, one more `-` completes the comment pattern exactly
      when the word ends in whitespace. */
  lemma CommentPattern(tokens: seq<string>, s: nat, i: nat)
    requires s < i < |tokens| && tokens[i] == "-" && IsRun(tokens[i - 1])
    ensures StartsComment(Concat(tokens[s..i + 1]) + "-") <==> IsWhitespace(tokens[i - 1][|tokens[i - 1]| - 1])
  {
    var w := tokens[i - 1];
    var text := Concat(tokens[s..i - 1]) + w + "-" + "-";
    assert Concat(tokens[s..i + 1]) + "-" == text by {
      ConcatSnoc(tokens, s, i - 1);
      ConcatSnoc(tokens, s, i);
    }
    assert text[|text| - 2..] == "--";
    assert text[|text| - 3] == w[|w| - 1];
  }

  /** `--` right after a word that ends in whitespace opens a line comment:
      the rest of the line joins the statement. */
  lemma CommentAfterSpace(tokens: seq<string>, s: nat, i: nat)
    requires s < i && i + 1 < |tokens| && tokens[i] == "-" && tokens[i + 1] == "-"
    requires IsRun(tokens[i - 1]) && IsWhitespace(tokens[i - 1][|tokens[i - 1]| - 1])
    ensures From(tokens, s, i) == From(tokens, s, LineEnd(tokens, i + 2, ""))
  {
    DashAfterWord(tokens, s, i);
    CommentPattern(tokens, s, i);
    CommentAt(tokens, s, i + 1);
  }

  /** `--` right after a word that does not end in whitespace is text. */
  lemma DashesAfterWord(tokens: seq<string>, s: nat, i: nat)
    requires s < i && i + 1 < |tokens| && tokens[i] == "-" && tokens[i + 1] == "-"
    requires IsRun(tokens[i - 1]) && !IsWhitespace(tokens[i - 1][|tokens[i - 1]| - 1])
    ensures From(tokens, s, i) == From(tokens, s, i + 2)
  {
    assert From(tokens, s, i + 1) == From(tokens, s, i + 2) by {
      CommentPattern(tokens, s, i);
      TextAt(tokens, s, i + 1);
    }
    DashAfterWord(tokens, s, i);
  }

  /** A word is text. */
  lemma WordAt(tokens: seq<string>, s: nat, i: nat)
    requires s <= i < |tokens| && IsRun(tokens[i])
    ensures From(tokens, s, i) == From(tokens, s, i + 1)
  {
    RunIsOrdinary(tokens[i]);
    TextAt(tokens, s, i);
  }

  /** A `;` closes a statement that starts with a visible character. */
  lemma CloseVisible(tokens: seq<string>, s: nat, i: nat)
    requires s < i < |tokens| && tokens[i] == ";" && !Blank(tokens[s])
    ensures From(tokens, s, i) == [Concat(tokens[s..i])] + From(tokens, i + 1, i + 1)
  {
    NotBlankSlice(tokens, s, i);
    CloseWord(tokens, s, i);
  }

  /** The second statement of the documentation example up to its comment:
      the `--` after whitespace takes the line, `;` included, into the
      statement. */
  lemma DocumentationComment(tokens: seq<string>, bar: string, baz: string, comment: string)
    requires Canonical(tokens) && 10 <= |tokens|
    requires tokens[2] == bar && tokens[3] == "\n" && tokens[4] == baz && tokens[5] == "-" && tokens[6] == "-"
    requires tokens[7] == comment && tokens[8] == ";" && tokens[9] == "\n"
    requires IsRun(bar) && IsRun(baz) && IsRun(comment) && IsWhitespace(baz[|baz| - 1])
    ensures From(tokens, 2, 2) == From(tokens, 2, 10)
  {
    assert From(tokens, 2, 2) == From(tokens, 2, 5) by {
      RunIsOrdinary(bar);
      RunIsOrdinary(baz);
      TextRun(tokens, 2, 2, 5);
    }
    assert LineEnd(tokens, 7, "") == 10 by {
      assert tokens[7] != "\n" by { RunIsOrdinary(comment); }
      LineEndAtNewline(tokens, 7, "", 9);
    }
    CommentAfterSpace(tokens, 2, 5);
  }

  /** The second statement of the documentation example from its quoted
      literal on: the literal, `;` included, joins the statement, and the `;`
      after it closes the statement. */
  lemma DocumentationQuote(tokens: seq<string>, fox: string)
    requires Canonical(tokens) && 15 <= |tokens|
    requires tokens[10] == "'" && tokens[11] == fox && tokens[12] == ";" && tokens[13] == "'" && tokens[14] == ";"
    requires IsRun(fox)
    ensures From(tokens, 2, 10) == Emit(Concat(tokens[2..14])) + From(tokens, 15, 15)
  {
    QuoteAt(tokens, 2, 10);
    assert QuoteEnd(tokens, 11, "'", "'") == 14 by {
      assert !IsSpecial(fox[0]);
      QuoteEndAtQuote(tokens, 11, "'", "'", 13);
    }
    CloseAt(tokens, 2, 14);
  }

  /** A script that ends with a newline and a word: that text is the last
      statement, newline included. */
  lemma NewlineThenWord(tokens: seq<string>, s: nat, word: string)
    requires |tokens| == s + 2 && tokens[s] == "\n" && tokens[s + 1] == word && IsRun(word) && !Blank(word)
    ensures From(tokens, s, s) == ["\n" + word]
  {
    NotBlankAppend(word, "\n");
    RunIsOrdinary(word);
    TextRun(tokens, s, s, s + 2);
    EndAt(tokens, s);
    assert Concat(tokens[s..]) == "\n" + word by {
      ConcatFirst(tokens, s, s + 2);
      ConcatFirst(tokens, s + 1, s + 2);
      assert tokens[s + 2..s + 2] == [];
    }
  }

  /** The tokens of the documentation example, with its words left abstract:
      `foo;bar\nbaz -- comment with ;\n'fox;';\nlove`. */
  predicate DocumentationTokens(tokens: seq<string>, foo: string, bar: string, baz: string, comment: string, fox: string, love: string) {
    && |tokens| == 17
    && tokens[0] == foo && tokens[1] == ";"
    && tokens[2] == bar && tokens[3] == "\n" && tokens[4] == baz && tokens[5] == "-" && tokens[6] == "-"
    && tokens[7] == comment && tokens[8] == ";" && tokens[9] == "\n"
    && tokens[10] == "'" && tokens[11] == fox && tokens[12] == ";" && tokens[13] == "'" && tokens[14] == ";"
    && tokens[15] == "\n" && tokens[16] == love
  }

  lemma DocumentationCanonical(tokens: seq<string>, foo: string, bar: string, baz: string, comment: string, fox: string, love: string)
    requires IsRun(foo) && IsRun(bar) && IsRun(baz) && IsRun(comment) && IsRun(fox) && IsRun(love)
    requires DocumentationTokens(tokens, foo, bar, baz, comment, fox, love)
    ensures Canonical(tokens)
  {
    var runs := {0, 2, 4, 7, 11, 16};
    forall k | 0 <= k < |tokens| ensures IsToken(tokens[k]) && (IsRun(tokens[k]) ==> k in runs) {
      if k in runs {
      } else {
        assert |tokens[k]| == 1 && IsSpecial(tokens[k][0]);
      }
    }
  }

  /** The example of the splitter's documentation, for any words in place of
      `foo`, `bar`, `baz `, ` comment with `, `fox` and `love`: the `;` inside
      the line comment and inside the quoted literal do not split, nothing is
      trimmed, and the newline after the last `;` stays at the front of the last
      statement. */
  lemma DocumentationExample(tokens: seq<string>, foo: string, bar: string, baz: string, comment: string, fox: string, love: string)
    requires DocumentationTokens(tokens, foo, bar, baz, comment, fox, love)
    requires IsRun(foo) && IsRun(bar) && IsRun(baz) && IsRun(comment) && IsRun(fox) && IsRun(love)
    requires IsWhitespace(baz[|baz| - 1])
    requires !Blank(foo) && !Blank(bar) && !Blank(love)
    ensures Split(Concat(tokens)) == [foo, Concat(tokens[2..14]), "\n" + love]
  {
    assert Split(Concat(tokens)) == Emit(foo) + (Emit(Concat(tokens[2..14])) + ["\n" + love]) by {
      DocumentationCanonical(tokens, foo, bar, baz, comment, fox, love);
      SplitTokens(tokens);
      DocumentationFirst(tokens, foo);
      DocumentationComment(tokens, bar, baz, comment);
      DocumentationQuote(tokens, fox);
      NewlineThenWord(tokens, 15, love);
    }
    assert Emit(Concat(tokens[2..14])) == [Concat(tokens[2..14])] by {
      ConcatFirst(tokens, 2, 14);
      NotBlankAppend(bar, Concat(tokens[3..14]));
    }
  }

  /** A script without delimiters leaves the splitter at top level. */
  lemma PlainAtTopLevel(s: string)
    requires forall k :: 0 <= k < |s| ==> !IsSpecial(s[k])
    ensures AtTopLevel(s)
  {
    TokenizePlain(s);
    if s != [] {
      assert !IsSpecial(s[0]);
      assert [s][1..] == [];
    }
  }

  /** `foo;bar`: two words around a `;` are two statements (each dropped when
      blank). */
  lemma WordsAroundSemicolon(first: string, second: string)
    requires forall k :: 0 <= k < |first| ==> !IsSpecial(first[k])
    requires forall k :: 0 <= k < |second| ==> !IsSpecial(second[k])
    ensures Split(first + ";" + second) == Emit(first) + Emit(second)
  {
    PlainAtTopLevel(first);
    SemicolonSeparates(first, second);
    SplitWithoutDelimiters(first);
    SplitWithoutDelimiters(second);
  }

  /** A word closed by `;` at the start of a statement is a statement. */
  lemma WordStatement(tokens: seq<string>, s: nat, word: string)
    requires s + 1 < |tokens| && tokens[s] == word && tokens[s + 1] == ";"
    requires IsRun(word) && !Blank(word)
    ensures From(tokens, s, s) == [word] + From(tokens, s + 2, s + 2)
  {
    RunIsOrdinary(word);
    TextAt(tokens, s, s);
    assert Concat(tokens[s..s + 1]) == word by {
      ConcatFirst(tokens, s, s + 1);
      assert tokens[s + 1..s + 1] == [];
    }
    CloseWord(tokens, s, s + 1);
  }

  /** A `;` at the start of a statement emits nothing. */
  lemma EmptyStatement(tokens: seq<string>, s: nat)
    requires s < |tokens| && tokens[s] == ";"
    ensures From(tokens, s, s) == From(tokens, s + 1, s + 1)
  {
    assert tokens[s..s] == [];
    CloseBlank(tokens, s, s);
  }

  /** Nothing is left at the end of the input. */
  lemma NothingLeft(tokens: seq<string>)
    ensures From(tokens, |tokens|, |tokens|) == []
  {
    EndAt(tokens, |tokens|);
    assert tokens[|tokens|..] == [];
  }

  /** `a;;b;`: runs of `;` produce no empty statements. */
  lemma RepeatedSemicolons(tokens: seq<string>, first: string, second: string)
    requires |tokens| == 5 && tokens[0] == first && tokens[1] == ";" && tokens[2] == ";"
    requires tokens[3] == second && tokens[4] == ";"
    requires IsRun(first) && IsRun(second) && !Blank(first) && !Blank(second)
    ensures Split(Concat(tokens)) == [first, second]
  {
    assert Split(Concat(tokens)) == From(tokens, 0, 0) by {
      assert Canonical(tokens) by {
        forall k | 0 <= k < |tokens| ensures IsToken(tokens[k]) && (IsRun(tokens[k]) ==> k == 0 || k == 3) {
          if k != 0 && k != 3 {
            assert |tokens[k]| == 1 && IsSpecial(tokens[k][0]);
          }
        }
      }
      SplitTokens(tokens);
    }
    WordStatement(tokens, 0, first);
    EmptyStatement(tokens, 2);
    WordStatement(tokens, 3, second);
    NothingLeft(tokens);
  }

  /** `!`, a word and a newline at the start of a statement: that line is a
      statement of its own. */
  lemma MetaCommandOnLine(tokens: seq<string>, s: nat)
    requires Canonical(tokens) && s + 2 < |tokens|
    requires tokens[s] == "!" && IsRun(tokens[s + 1]) && tokens[s + 2] == "\n"
    ensures From(tokens, s, s) == [Concat(tokens[s..s + 3])] + From(tokens, s + 3, s + 3)
  {
    assert LineEnd(tokens, s + 1, "") == s + 3 by {
      RunIsOrdinary(tokens[s + 1]);
      LineEndAtNewline(tokens, s + 1, "", s + 2);
    }
    assert From(tokens, s, s) == Emit(Concat(tokens[s..s + 3])) + From(tokens, s + 3, s + 3) by {
      assert tokens[s..s] == [];
      MetaCommandAt(tokens, s, s);
    }
    assert !Blank(Concat(tokens[s..s + 3])) by {
      assert !Blank("!") by { assert "!"[0] > ' '; }
      NotBlankSlice(tokens, s, s + 3);
    }
  }

  /** Blank text, `!`, a word and a newline at the start of a statement: the
      blank text is kept in the meta-command statement. */
  lemma MetaCommandAfterBlank(tokens: seq<string>, s: nat)
    requires Canonical(tokens) && s + 3 < |tokens|
    requires IsRun(tokens[s]) && Blank(tokens[s]) && tokens[s + 1] == "!"
    requires IsRun(tokens[s + 2]) && tokens[s + 3] == "\n"
    ensures From(tokens, s, s) == [Concat(tokens[s..s + 4])] + From(tokens, s + 4, s + 4)
  {
    assert Concat(tokens[s..s + 1]) == tokens[s] by {
      ConcatFirst(tokens, s, s + 1);
      assert tokens[s + 1..s + 1] == [];
    }
    assert LineEnd(tokens, s + 2, "") == s + 4 by {
      RunIsOrdinary(tokens[s + 2]);
      LineEndAtNewline(tokens, s + 2, "", s + 3);
    }
    assert From(tokens, s, s) == From(tokens, s, s + 1) by {
      WordAt(tokens, s, s);
    }
    assert From(tokens, s, s + 1) == Emit(Concat(tokens[s..s + 4])) + From(tokens, s + 4, s + 4) by {
      MetaCommandAt(tokens, s, s + 1);
    }
    assert !Blank(Concat(tokens[s..s + 4])) by {
      assert !Blank("!") by { assert "!"[0] > ' '; }
      NotBlankSlice(tokens, s + 1, s + 4);
      ConcatSplit(tokens, s, s + 1, s + 4);
      NotBlankAppend(Concat(tokens[s + 1..s + 4]), Concat(tokens[s..s + 1]));
    }
  }

  /** `  !connect …` on a line of its own: blank text before `!` still opens
      a meta-command, and it stays at the front of the statement. */
  lemma IndentedMetaCommand(tokens: seq<string>, indent: string, command: string, sql: string)
    requires |tokens| == 6 && tokens[0] == indent && tokens[1] == "!" && tokens[2] == command
    requires tokens[3] == "\n" && tokens[4] == sql && tokens[5] == ";"
    requires IsRun(indent) && Blank(indent) && IsRun(command) && IsRun(sql) && !Blank(sql)
    ensures Split(Concat(tokens)) == [Concat(tokens[0..4]), sql]
  {
    assert Canonical(tokens) by {
      forall k | 0 <= k < |tokens| ensures IsToken(tokens[k]) && (IsRun(tokens[k]) ==> k == 0 || k == 2 || k == 4) {
        if k != 0 && k != 2 && k != 4 {
          assert |tokens[k]| == 1 && IsSpecial(tokens[k][0]);
        }
      }
    }
    assert Split(Concat(tokens)) == From(tokens, 0, 0) by {
      SplitTokens(tokens);
    }
    MetaCommandAfterBlank(tokens, 0);
    WordStatement(tokens, 4, sql);
    NothingLeft(tokens);
  }

  /** `!connect …` on a line of its own: a Beeline command needs no `;`; its
      line, newline included, is a statement, and the script goes on after it. */
  lemma MetaCommandLine(tokens: seq<string>, command: string, sql: string)
    requires |tokens| == 5 && tokens[0] == "!" && tokens[1] == command && tokens[2] == "\n"
    requires tokens[3] == sql && tokens[4] == ";"
    requires IsRun(command) && IsRun(sql) && !Blank(sql)
    ensures Split(Concat(tokens)) == [Concat(tokens[0..3]), sql]
  {
    assert Canonical(tokens) by {
      forall k | 0 <= k < |tokens| ensures IsToken(tokens[k]) && (IsRun(tokens[k]) ==> k == 1 || k == 3) {
        if k != 1 && k != 3 {
          assert |tokens[k]| == 1 && IsSpecial(tokens[k][0]);
        }
      }
    }
    SplitTokens(tokens);
    MetaCommandOnLine(tokens, 0);
    WordStatement(tokens, 3, sql);
    NothingLeft(tokens);
  }

  /** `--` not preceded by whitespace does not open a comment: the `;` after
      it closes the statement, and the `--` stays in it as text. */
  lemma DashesWithoutSpace(tokens: seq<string>, first: string, second: string, last: string)
    requires |tokens| == 7 && tokens[0] == first && tokens[1] == "-" && tokens[2] == "-"
    requires tokens[3] == second && tokens[4] == ";" && tokens[5] == "\n" && tokens[6] == last
    requires IsRun(first) && IsRun(second) && IsRun(last) && !IsWhitespace(first[|first| - 1])
    requires !Blank(first) && !Blank(last)
    ensures Split(Concat(tokens)) == [Concat(tokens[0..4]), "\n" + last]
  {
    assert Split(Concat(tokens)) == From(tokens, 0, 0) by {
      assert Canonical(tokens) by {
        forall k | 0 <= k < |tokens| ensures IsToken(tokens[k]) && (IsRun(tokens[k]) ==> k == 0 || k == 3 || k == 6) {
          if k != 0 && k != 3 && k != 6 {
            assert |tokens[k]| == 1 && IsSpecial(tokens[k][0]);
          }
        }
      }
      SplitTokens(tokens);
    }
    WordAt(tokens, 0, 0);
    DashesAfterWord(tokens, 0, 1);
    WordAt(tokens, 0, 3);
    CloseVisible(tokens, 0, 4);
    NewlineThenWord(tokens, 5, last);
  }

  /** `select '\';`: the backslash escapes the closing quote, so the literal
      never closes and the `;` after it stays inside it; the whole script is one
      statement. */
  lemma EscapedQuote(tokens: seq<string>, select: string, escaped: string)
    requires |tokens| == 5 && tokens[0] == select && tokens[1] == "'" && tokens[2] == escaped
    requires tokens[3] == "'" && tokens[4] == ";"
    requires IsRun(select) && IsRun(escaped) && escaped[|escaped| - 1] == '\\' && !Blank(select)
    ensures Split(Concat(tokens)) == [Concat(tokens)]
  {
    assert Split(Concat(tokens)) == From(tokens, 0, 0) by {
      assert Canonical(tokens) by {
        forall k | 0 <= k < |tokens| ensures IsToken(tokens[k]) && (IsRun(tokens[k]) ==> k == 0 || k == 2) {
          if k != 0 && k != 2 {
            assert |tokens[k]| == 1 && IsSpecial(tokens[k][0]);
          }
        }
      }
      SplitTokens(tokens);
    }
    WordAt(tokens, 0, 0);
    assert QuoteEnd(tokens, 2, "'", "'") == 5 by {
      UnclosedQuote(tokens, escaped);
    }
    assert From(tokens, 0, 1) == From(tokens, 0, 5) by {
      QuoteAt(tokens, 0, 1);
    }
    assert From(tokens, 0, 5) == [Concat(tokens)] by {
      assert tokens[0..] == tokens[0..5] == tokens;
      EndAt(tokens, 0);
      NotBlankSlice(tokens, 0, 5);
    }
  }

  /** The quote after a backslash does not close the literal, and nothing
      after it does either. */
  lemma UnclosedQuote(tokens: seq<string>, escaped: string)
    requires |tokens| == 5 && tokens[2] == escaped && tokens[3] == "'" && tokens[4] == ";"
    requires IsRun(escaped) && escaped[|escaped| - 1] == '\\'
    ensures QuoteEnd(tokens, 2, "'", "'") == 5
  {
    var q1 := "'" + escaped;
    var q2 := q1 + "'";
    var q3 := q2 + ";";
    assert !ClosesQuote(q1, "'") by {
      assert q1[|q1| - 1] == '\\';
    }
    assert !ClosesQuote(q2, "'") by {
      assert q2[|q2| - 2] == '\\';
    }
    assert !ClosesQuote(q3, "'") by {
      assert q3[|q3| - 1] == ';';
    }
    assert QuoteEnd(tokens, 5, "'", q3) == 5;
  }

  /** `--` at the very start of a statement is text: no whitespace precedes it. */
  lemma DashesAtStart(tokens: seq<string>, s: nat)
    requires s + 1 < |tokens| && tokens[s] == "-" && tokens[s + 1] == "-"
    ensures From(tokens, s, s) == From(tokens, s, s + 2)
  {
    assert From(tokens, s, s) == From(tokens, s, s + 1) by {
      assert Concat(tokens[s..s]) == "" by { assert tokens[s..s] == []; }
      assert !StartsComment("" + "-");
      TextAt(tokens, s, s);
    }
    assert From(tokens, s, s + 1) == From(tokens, s, s + 2) by {
      assert Concat(tokens[s..s + 1]) == "-" by {
        ConcatFirst(tokens, s, s + 1);
        assert tokens[s + 1..s + 1] == [];
      }
      assert !StartsComment("-" + "-");
      TextAt(tokens, s, s + 1);
    }
  }

  /** `--x;`: a script that starts with `--` has no comment; the `;` closes
      the statement `--x`. */
  lemma LeadingDashes(tokens: seq<string>, word: string)
    requires |tokens| == 4 && tokens[0] == "-" && tokens[1] == "-" && tokens[2] == word && tokens[3] == ";"
    requires IsRun(word)
    ensures Split(Concat(tokens)) == [Concat(tokens[0..3])]
  {
    assert Split(Concat(tokens)) == From(tokens, 0, 0) by {
      assert Canonical(tokens) by {
        forall k | 0 <= k < |tokens| ensures IsToken(tokens[k]) && (IsRun(tokens[k]) ==> k == 2) {
          if k != 2 {
            assert |tokens[k]| == 1 && IsSpecial(tokens[k][0]);
          }
        }
      }
      SplitTokens(tokens);
    }
    assert From(tokens, 0, 0) == From(tokens, 0, 3) by {
      DashesAtStart(tokens, 0);
      RunIsOrdinary(word);
      TextAt(tokens, 0, 2);
    }
    assert From(tokens, 0, 3) == [Concat(tokens[0..3])] + From(tokens, 4, 4) by {
      assert !Blank(Concat(tokens[0..3])) by {
        assert !Blank("-") by { assert "-"[0] > ' '; }
        NotBlankSlice(tokens, 0, 3);
      }
      CloseWord(tokens, 0, 3);
    }
    NothingLeft(tokens);
  }
}
