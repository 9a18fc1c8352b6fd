# HiveRunner statement splitter, modelled in Dafny

HiveRunner runs HiveQL scripts in tests. Before it executes a script, it cuts
the script into executable statements with `StatementsSplitter.splitStatements`.
The splitter splits on `;` but leaves three kinds of `;` alone:

- a `;` inside a `'…'` or `"…"` literal, where a backslash before the closing
  quote keeps the literal open;
- a `;` inside a `--` line comment, where the `--` counts only after a
  whitespace character;
- a `;` inside a Beeline/SQLLine meta-command line, which starts with `!` on a
  blank statement and is a statement of its own up to its newline.

Each piece that is not blank becomes a `HiveQueryLanguageStatement`, which is
an immutable holder of its text.

The project has one module per concern:

- `HiveStatement` is the statement value: the factory, the getter, and the
  list of texts of a statement list.
- `Tokenizer` models the delimiter-returning `StringTokenizer` over
  `; " ' - \n !` by its effect. Each token is one delimiter or a maximal run of
  other characters. `Tokenize` is proved to lose nothing and to be the only
  canonical tokenization of its text.
- `SplitterSpec` is the reference definition. It is a scanner that takes one
  token at a time and has four modes: top level, line comment, quoted literal
  and meta-command. Each mode's buffer is the local string that the Java
  helper builds. The module also defines `LineEnd` and `QuoteEnd`, the cursor
  positions where the two reading helpers stop. `Split(s)` is what the
  splitter returns for script `s`. Step lemmas state what each branch of the
  Java `switch` does to the rest of the run.
- `StatementsSplitter` holds the imperative code: the main loop and the two
  reading loops. They share one token cursor, as the Java methods share the
  tokenizer. Each is proved against `SplitterSpec`.
- `SplitterProperties` holds what the splitter promises about whole scripts:
  - every statement is non-blank;
  - statements are verbatim, in order, and separated only by `;` and blank
    text;
  - a top-level `;` separates two scripts that split independently;
  - every statement splits to itself;
  - joining the statements with `;` and splitting again gives them back.
- `SplitterScenarios` holds worked scripts. Each script is given by its
  tokens, with its words left abstract, so that each lemma covers every
  choice of words.

The regular expressions are written as index checks:

- `.*\s--` (DOTALL) holds when the statement ends in `--` right after a
  character of Java's `\s` (space, tab, newline, U+000B, U+000C, carriage
  return).
- `.*[^\\].` (DOTALL) holds when the text has at least two characters and its
  next-to-last one is not a backslash.

`trim().isEmpty()` and `trim().length() > 0` become "every character is at or
below U+0020" (`Blank`) and its negation.

### Where the code and its documentation differ (the model follows the code)

- The class comment (lines 16 and 26-30 of `StatementsSplitter.java`) says
  that trailing whitespace is removed and that the last statement of its
  example is `love`. The code removes nothing: `trim` is only a test. So the
  last statement is `\nlove`. `DocumentationExample` proves the code's
  result.
- `'\\'` does not close a literal: the character before the closing quote is
  a backslash. In `select '\\';` the literal never closes, and the `;` stays
  inside it. The whole script is one statement that still ends in `;`
  (`EscapedQuote`).
- A `--` opens a comment only when a whitespace character precedes it in the
  statement. A `--` at the very start of a statement is text
  (`DashesAtStart`, `LeadingDashes`), and so is `a--b` (`DashesWithoutSpace`).

## Model

| member | source | states |
|---|---|---|
| HiveStatement.ForStatementString | src/main/java/com/klarna/hiverunner/HiveQueryLanguageStatement.java:5-7 | the statement built by the factory gives back exactly the text it was given |
| HiveStatement.HiveQueryLanguageStatement.GetStatementString | src/main/java/com/klarna/hiverunner/HiveQueryLanguageStatement.java:15-17 | the getter returns the held text (no contract of its own; `ForStatementString` ties it to the factory's argument) |
| HiveStatement.FactoryBuildsEveryStatement | src/main/java/com/klarna/hiverunner/HiveQueryLanguageStatement.java:5-13 | in the value model, every statement is the one the factory builds from its own text, so the factory is the only way a statement arises |
| HiveStatement.FactoryIsInjective | src/main/java/com/klarna/hiverunner/HiveQueryLanguageStatement.java:9-17 | in the value model, two statements from the factory are equal exactly when their texts are; the direction "equal statements have equal texts" is the program's own promise that the text is stored as given |
| HiveStatement.Texts | src/main/java/com/klarna/hiverunner/HiveQueryLanguageStatement.java:15-17 | the texts of a statement list have the list's length, and entry k is the getter of statement k |
| Tokenizer.IsSpecial | src/main/java/com/klarna/hiverunner/sql/StatementsSplitter.java:37-38 | the delimiters are `;`, `"`, `'`, `-`, newline and `!` (no contract of its own; `SpecialCharsAreDelimiters` ties it to the two constants) |
| Tokenizer.SpecialCharsAreDelimiters | src/main/java/com/klarna/hiverunner/sql/StatementsSplitter.java:37-38 | a character is a delimiter exactly when it is in `SQL_SPECIAL_CHARS` followed by `BEELINE_SPECIAL_CHARS` |
| Tokenizer.RunLength | src/main/java/com/klarna/hiverunner/sql/StatementsSplitter.java:37-38 | the longest prefix free of the delimiters `; " ' - \n !` ends at the end of the text or at a delimiter |
| Tokenizer.Tokenize | src/main/java/com/klarna/hiverunner/sql/StatementsSplitter.java:46 | the tokens glue back to the input, each token is one delimiter or a run of other characters, and no two runs are adjacent |
| Tokenizer.TokenizeConcat | src/main/java/com/klarna/hiverunner/sql/StatementsSplitter.java:46 | tokenizing the text of any such token sequence gives that sequence back, so the tokenization is unique |
| Tokenizer.TokenizeAround | src/main/java/com/klarna/hiverunner/sql/StatementsSplitter.java:37-38 | the tokens of a text cut at one delimiter are the tokens of each side around that delimiter's token |
| Tokenizer.TokenizePlain | src/main/java/com/klarna/hiverunner/sql/StatementsSplitter.java:37-38 | text with no delimiter is a single token, or no token when it is empty |
| SplitterSpec.Blank | src/main/java/com/klarna/hiverunner/sql/StatementsSplitter.java:79 | a text is blank when no character is above U+0020 (no contract of its own; `TrimEmptyIffBlank` ties it to `trim().isEmpty()`) |
| SplitterSpec.TrimEmptyIffBlank | src/main/java/com/klarna/hiverunner/sql/StatementsSplitter.java:103-106 | a text is blank exactly when Java's `trim()` leaves it empty, so blankness is both `trim().isEmpty()` and the negation of `trim().length() > 0` |
| SplitterSpec.StartsComment | src/main/java/com/klarna/hiverunner/sql/StatementsSplitter.java:34 | the statement has at least three characters, ends in `--`, and the character before them is in Java's `\s` (no contract of its own; `StartsCommentMatchesPattern` ties it to the pattern) |
| SplitterSpec.StartsCommentMatchesPattern | src/main/java/com/klarna/hiverunner/sql/StatementsSplitter.java:34 | the index check holds exactly when the whole statement matches `.*\s--` with DOTALL, with `.*` skipping any number of characters |
| SplitterSpec.LastCharNotEscaped | src/main/java/com/klarna/hiverunner/sql/StatementsSplitter.java:35 | the quoted text has at least two characters and the next-to-last one is not a backslash (no contract of its own; `LastCharNotEscapedMatchesPattern` ties it to the pattern) |
| SplitterSpec.LastCharNotEscapedMatchesPattern | src/main/java/com/klarna/hiverunner/sql/StatementsSplitter.java:35 | the index check holds exactly when the whole text matches `.*[^\\].` with DOTALL |
| SplitterSpec.ClosesQuote | src/main/java/com/klarna/hiverunner/sql/StatementsSplitter.java:126-127 | the quoted text ends with the opening quote and its last character is not escaped (no contract of its own) |
| SplitterSpec.IsValidStatement | src/main/java/com/klarna/hiverunner/sql/StatementsSplitter.java:103-106 | a statement is kept exactly when it has a character above U+0020 |
| SplitterSpec.LineEnd | src/main/java/com/klarna/hiverunner/sql/StatementsSplitter.java:108-119 | the line reader's cursor stays within the tokens and moves forward whenever tokens remain |
| SplitterSpec.LineEndEndsLine | src/main/java/com/klarna/hiverunner/sql/StatementsSplitter.java:111-116 | the line reader stops after a token that makes the text read end with a newline, unless the tokens run out |
| SplitterSpec.LineEndIsFirstNewline | src/main/java/com/klarna/hiverunner/sql/StatementsSplitter.java:111-116 | before the stop, the text read never ends with a newline, so the stop is the first one |
| SplitterSpec.QuoteEnd | src/main/java/com/klarna/hiverunner/sql/StatementsSplitter.java:121-132 | the quote reader's cursor stays within the tokens and moves forward whenever tokens remain |
| SplitterSpec.QuoteEndClosesQuote | src/main/java/com/klarna/hiverunner/sql/StatementsSplitter.java:123-130 | the quote reader stops after a token that ends the text with the opening quote not preceded by a backslash, unless the tokens run out |
| SplitterSpec.QuoteEndIsFirstClose | src/main/java/com/klarna/hiverunner/sql/StatementsSplitter.java:123-130 | before the stop, the quoted text is never closed, so the stop is the first closing quote |
| SplitterSpec.Emit | src/main/java/com/klarna/hiverunner/sql/StatementsSplitter.java:96-99 | closing a statement yields at most one text, none exactly when the statement is blank, and that text is the statement itself |
| SplitterSpec.Feed | src/main/java/com/klarna/hiverunner/sql/StatementsSplitter.java:52-93 | one token's effect per mode: the `switch` on the token at top level, and one iteration of the line reader's or the quote reader's loop otherwise (no contract of its own; `FeedCases` and the step lemmas below state what it does) |
| SplitterSpec.FeedCases | src/main/java/com/klarna/hiverunner/sql/StatementsSplitter.java:52-93 | one token either adds its text to what has been read and emits nothing, or closes the statement: at a top-level `;`, which is dropped, or at the newline that ends a meta-command, which is kept |
| SplitterSpec.Finish | src/main/java/com/klarna/hiverunner/sql/StatementsSplitter.java:50-99 | every statement emitted while reading and at the end of the input is non-blank |
| SplitterSpec.Emitted | src/main/java/com/klarna/hiverunner/sql/StatementsSplitter.java:50-94 | every statement emitted while reading is non-blank |
| SplitterSpec.Split | src/main/java/com/klarna/hiverunner/sql/StatementsSplitter.java:45-101 | every statement of a script is non-blank |
| SplitterSpec.FinishAppend | src/main/java/com/klarna/hiverunner/sql/StatementsSplitter.java:50-94 | reading tokens in two parts emits what the first part emits, then what the rest emits from where the first part left the scanner |
| SplitterSpec.LineCommentReadsLine | src/main/java/com/klarna/hiverunner/sql/StatementsSplitter.java:64-69 | inside a line comment, the scanner reads what the line reader reads, adds it to the statement and goes back to top level |
| SplitterSpec.QuoteReadsLiteral | src/main/java/com/klarna/hiverunner/sql/StatementsSplitter.java:72-75 | inside a literal, the scanner reads what the quote reader reads, adds it to the statement and goes back to top level |
| SplitterSpec.MetaCommandReadsLine | src/main/java/com/klarna/hiverunner/sql/StatementsSplitter.java:78-88 | inside a meta-command, the scanner reads what the line reader reads, emits the statement with that line unless blank, and starts afresh |
| SplitterSpec.SemicolonCloses | src/main/java/com/klarna/hiverunner/sql/StatementsSplitter.java:55-61 | a top-level `;` emits the statement unless blank, drops itself and starts an empty statement |
| SplitterSpec.DashOpensComment | src/main/java/com/klarna/hiverunner/sql/StatementsSplitter.java:64-69 | a `-` that completes a whitespace-preceded `--` adds the rest of the line, newline included, to the statement |
| SplitterSpec.DashIsText | src/main/java/com/klarna/hiverunner/sql/StatementsSplitter.java:64-69 | any other `-` is text of the statement |
| SplitterSpec.QuoteOpensLiteral | src/main/java/com/klarna/hiverunner/sql/StatementsSplitter.java:72-75 | a quote adds the whole literal to the statement, from the opening quote through the reader's stop |
| SplitterSpec.BangOpensMetaCommand | src/main/java/com/klarna/hiverunner/sql/StatementsSplitter.java:78-88 | a `!` on a blank statement emits that statement, the `!` and the rest of the line as one statement, unless blank, and starts afresh |
| SplitterSpec.OtherTokenIsText | src/main/java/com/klarna/hiverunner/sql/StatementsSplitter.java:78-92 | every other token, including a `!` after visible text, is text of the statement |
| StatementsSplitter.ReadUntilEndOfLine | src/main/java/com/klarna/hiverunner/sql/StatementsSplitter.java:108-119 | the loop stops where `LineEnd` says and returns the text of exactly the tokens it read |
| StatementsSplitter.ReadQuoted | src/main/java/com/klarna/hiverunner/sql/StatementsSplitter.java:121-132 | the loop stops where `QuoteEnd` says and returns the opening quote followed by the text of exactly the tokens it read |
| StatementsSplitter.SplitStatements | src/main/java/com/klarna/hiverunner/sql/StatementsSplitter.java:45-101 | the texts of the statements the loop builds are exactly `Split` of the script |
| StatementsSplitter.AddIfValid | src/main/java/com/klarna/hiverunner/sql/StatementsSplitter.java:96-99 | the list grows by one statement holding the text when the text is not blank, and is unchanged otherwise |
| SplitterProperties.InertEmitsNothing | src/main/java/com/klarna/hiverunner/sql/StatementsSplitter.java:55-61 | from a blank statement, tokens made only of `;` and blank characters emit nothing |
| SplitterProperties.SplitOfInert | src/main/java/com/klarna/hiverunner/sql/StatementsSplitter.java:55-61 | the empty script, and any script made only of `;` and blank characters, has no statements |
| SplitterProperties.SplitWithoutDelimiters | src/main/java/com/klarna/hiverunner/sql/StatementsSplitter.java:91-99 | a script with none of `; " ' - \n !` is one statement, itself, when not blank, and none otherwise |
| SplitterProperties.SplitAround | src/main/java/com/klarna/hiverunner/sql/StatementsSplitter.java:49-94 | a script cut at one delimiter is read as the part before it, then the delimiter, then the part after it, from where the first part left the scanner |
| SplitterProperties.SemicolonSeparates | src/main/java/com/klarna/hiverunner/sql/StatementsSplitter.java:55-61 | when the first script leaves the splitter at top level, `s1 + ";" + s2` splits into the statements of `s1` followed by those of `s2` |
| SplitterProperties.FinishLayout | src/main/java/com/klarna/hiverunner/sql/StatementsSplitter.java:49-99 | what the scanner reads is its statements, verbatim and in order, with gaps made only of `;` and blank characters between them |
| SplitterProperties.SplitLayout | src/main/java/com/klarna/hiverunner/sql/StatementsSplitter.java:45-101 | a script is its statements, verbatim and in order, with only `;` and blank characters around them: nothing is trimmed, and only `;` and blank characters are dropped (that each dropped `;` was read at top level is stated one token at a time by `FeedCases` and `SemicolonCloses`) |
| SplitterProperties.MetaCommandResplits | src/main/java/com/klarna/hiverunner/sql/StatementsSplitter.java:78-88 | a meta-command statement, split on its own, is that statement, and it leaves the splitter at top level |
| SplitterProperties.StatementsResplit | src/main/java/com/klarna/hiverunner/sql/StatementsSplitter.java:45-101 | every statement of a script, split on its own, is exactly itself |
| SplitterProperties.JoinResplits | src/main/java/com/klarna/hiverunner/sql/StatementsSplitter.java:55-61 | statements that each split to themselves and leave the splitter at top level, joined with `;`, split back into the same list |
| SplitterProperties.SplitRejoin | src/main/java/com/klarna/hiverunner/sql/StatementsSplitter.java:45-101 | joining a script's statements with `;` and splitting again gives the same statements |
| SplitterScenarios.LineEndAtNewline | src/main/java/com/klarna/hiverunner/sql/StatementsSplitter.java:108-119 | on tokenizer output, the line reader stops just after the first newline token |
| SplitterScenarios.QuoteEndAtQuote | src/main/java/com/klarna/hiverunner/sql/StatementsSplitter.java:121-132 | on tokenizer output, the quote reader stops just after the first token that is the quote, when the character before it is not a backslash |
| SplitterScenarios.CommentPattern | src/main/java/com/klarna/hiverunner/sql/StatementsSplitter.java:34 | after a word and `-`, a second `-` matches the comment pattern exactly when the word ends in whitespace |
| SplitterScenarios.CommentAfterSpace | src/main/java/com/klarna/hiverunner/sql/StatementsSplitter.java:64-69 | `--` after whitespace takes the rest of the line into the statement |
| SplitterScenarios.DashesAfterWord | src/main/java/com/klarna/hiverunner/sql/StatementsSplitter.java:64-69 | `--` after a word that does not end in whitespace is text |
| SplitterScenarios.DashesAtStart | src/main/java/com/klarna/hiverunner/sql/StatementsSplitter.java:64-69 | `--` at the very start of a statement is text |
| SplitterScenarios.MetaCommandOnLine | src/main/java/com/klarna/hiverunner/sql/StatementsSplitter.java:78-88 | `!`, a word and a newline at the start of a statement form a statement of their own |
| SplitterScenarios.WordsAroundSemicolon | src/main/java/com/klarna/hiverunner/sql/StatementsSplitter.java:55-61 | `foo;bar` is two statements, each dropped when blank |
| SplitterScenarios.RepeatedSemicolons | src/main/java/com/klarna/hiverunner/sql/StatementsSplitter.java:55-61 | `a;;b;` is `[a, b]`, with no empty statements |
| SplitterScenarios.DocumentationExample | src/main/java/com/klarna/hiverunner/sql/StatementsSplitter.java:18-30 | `foo;bar\nbaz -- comment with ;\n'fox;';\nlove` is three statements: `foo`, `bar\nbaz -- comment with ;\n'fox;'` and `\nlove` |
| SplitterScenarios.MetaCommandAfterBlank | src/main/java/com/klarna/hiverunner/sql/StatementsSplitter.java:78-88 | blank text, `!`, a word and a newline at the start of a statement form one statement that keeps the blank text in front |
| SplitterScenarios.IndentedMetaCommand | src/main/java/com/klarna/hiverunner/sql/StatementsSplitter.java:78-88 | `  !cmd\nsql;` is the statement `  !cmd\n` followed by `sql`: blank text before `!` still opens a meta-command and is kept |
| SplitterScenarios.MetaCommandLine | src/main/java/com/klarna/hiverunner/sql/StatementsSplitter.java:78-88 | `!cmd\nsql;` is the statement `!cmd\n` followed by `sql`: a meta-command needs no `;` |
| SplitterScenarios.DashesWithoutSpace | src/main/java/com/klarna/hiverunner/sql/StatementsSplitter.java:64-69 | `a--b;\nc` is `[a--b, \nc]`: the `--` is text and the `;` after it closes the statement |
| SplitterScenarios.LeadingDashes | src/main/java/com/klarna/hiverunner/sql/StatementsSplitter.java:64-69 | `--x;` is the one statement `--x` |
| SplitterScenarios.UnclosedQuote | src/main/java/com/klarna/hiverunner/sql/StatementsSplitter.java:121-132 | over the tokens `<word ending in \>`, `'`, `;` (read after an opening `'`), the quote after the backslash does not close the literal, and the quote reader runs to the end of the tokens |
| SplitterScenarios.EscapedQuote | src/main/java/com/klarna/hiverunner/sql/StatementsSplitter.java:121-132 | `select '\\';` is one statement holding the whole script, `;` included |

## Left out

- `StandaloneHiveServerContext.java` is not part of this model. It is engine configuration: option flags, temporary folders, JVM system properties, and driver loading by name.
- `java.util.StringTokenizer` and `java.util.regex` are modelled by their effect: a canonical token sequence and two index checks. Their internals are not modelled.
- The Java splitter pulls tokens lazily from the tokenizer. The model tokenizes the whole script first and passes a cursor into the token sequence. The tokens read are the same, in the same order.
- The `ArrayList` of statements is a `seq` that the loop reassigns. It has no identity, and no other code holds a reference to it.
- HiveStatement.FactoryBuildsEveryStatement, HiveStatement.FactoryIsInjective: the model compares statements by their text, as values. The Java class overrides neither `equals` nor `hashCode`, so Java statements compare by object identity, and two calls of `forStatementString` with the same text give two unequal objects. Of these two lemmas, only "equal statements have equal texts" is a promise of the program.
- The `final` field and the private constructor of `HiveQueryLanguageStatement` have no counterpart: a Dafny datatype value never changes, and `FactoryBuildsEveryStatement` states that the factory accounts for every value.
- Performance is not modelled. This includes the quadratic cost of repeated string concatenation.
- Characters are Dafny `char` values. Blankness compares them with U+0020, as Java's `trim` does on UTF-16 units. Surrogate pairs and other Unicode details are not modelled.
- The worked scripts in `SplitterScenarios` are stated over token sequences with abstract words, rather than over literal strings. Each one covers every choice of words that tokenizes that way.
