/** The splitter itself: one loop over the tokens of the script that builds the
    current statement and closes it at every top-level `;`, and two reading
    loops that share the token cursor with it, one for the rest of a line and
    one for a quoted literal. The cursor is the index of the next token. */
module StatementsSplitter {
  import opened Tokenizer
  import opened SplitterSpec
  import opened HiveStatement

  /** Reads tokens up to and including the first one after which the text read
      ends with a newline, or up to the end of the tokens. */
  method ReadUntilEndOfLine(tokens: seq<string>, i: nat) returns (line: string, next: nat)
    requires i <= |tokens|
    ensures next == LineEnd(tokens, i, "")
    ensures line == Concat(tokens[i..next])
  {
    line := "";
    next := i;
    while next < |tokens|
      invariant i <= next <= |tokens|
      invariant line == Concat(tokens[i..next])
      invariant LineEnd(tokens, next, line) == LineEnd(tokens, i, "")
      decreases |tokens| - next
    {
      ConcatSnoc(tokens, i, next);
      line := line + tokens[next];
      next := next + 1;
      if EndsWith(line, "\n") {
        break;
      }
    }
  }

  /** Reads a quoted literal whose opening quote token has been read: tokens up
      to and including the first one that ends the text with the same quote not
      preceded by a backslash, or up to the end of the tokens. The result starts
      with the opening quote. */
  method ReadQuoted(tokens: seq<string>, i: nat, startQuoteToken: string) returns (quoted: string, next: nat)
    requires i <= |tokens|
    ensures next == QuoteEnd(tokens, i, startQuoteToken, startQuoteToken)
    ensures quoted == startQuoteToken + Concat(tokens[i..next])
  {
    quoted := startQuoteToken;
    next := i;
    while next < |tokens|
      invariant i <= next <= |tokens|
      invariant quoted == startQuoteToken + Concat(tokens[i..next])
      invariant QuoteEnd(tokens, next, startQuoteToken, quoted) == QuoteEnd(tokens, i, startQuoteToken, startQuoteToken)
      decreases |tokens| - next
    {
      ConcatSnocAfter(startQuoteToken, tokens, i, next);
      quoted := quoted + tokens[next];
      next := next + 1;
      if EndsWith(quoted, startQuoteToken) && LastCharNotEscaped(quoted) {
        break;
      }
    }
  }

  /** Splits a script into statements: exactly the statements of `Split`. */
  method SplitStatements(expression: string) returns (statements: seq<HiveQueryLanguageStatement>)
    ensures Texts(statements) == Split(expression)
  {
    var tokens := Tokenize(expression);
    statements := [];
    var statement := "";
    var i := 0;
    ghost var emitted: seq<string> := [];
    while i < |tokens|
      invariant i <= |tokens|
      invariant Texts(statements) == emitted
      invariant emitted + Finish(Scanner(Normal, statement), tokens[i..]) == Split(expression)
      decreases |tokens| - i
    {
      var token := tokens[i];
      if token == ";" {
        SemicolonCloses(tokens, i, statement);
        AppendAssociative(emitted, Emit(statement), Finish(Start, tokens[i + 1..]));
        i := i + 1;
        statements := AddIfValid(statements, statement);
        emitted := emitted + Emit(statement);
        statement := "";
      } else if token == "-" {
        ghost var before := statement;
        statement := statement + token;
        if StartsComment(statement) {
          DashOpensComment(tokens, i, before);
          var line;
          line, i := ReadUntilEndOfLine(tokens, i + 1);
          statement := statement + line;
        } else {
          DashIsText(tokens, i, before);
          i := i + 1;
        }
      } else if token == "\"" || token == "'" {
        QuoteOpensLiteral(tokens, i, statement);
        var quoted;
        quoted, i := ReadQuoted(tokens, i + 1, token);
        statement := statement + quoted;
      } else if token == "!" && Blank(statement) {
        BangOpensMetaCommand(tokens, i, statement);
        ghost var j := LineEnd(tokens, i + 1, "");
        AppendAssociative(emitted, Emit(statement + "!" + Concat(tokens[i + 1..j])), Finish(Start, tokens[j..]));
        statement := statement + token;
        var line;
        line, i := ReadUntilEndOfLine(tokens, i + 1);
        statement := statement + line;
        statements := AddIfValid(statements, statement);
        emitted := emitted + Emit(statement);
        statement := "";
      } else {
        OtherTokenIsText(tokens, i, statement);
        statement := statement + token;
        i := i + 1;
      }
    }
    assert Finish(Scanner(Normal, statement), tokens[i..]) == Emit(statement) by {
      assert tokens[i..] == [];
      assert Text(Scanner(Normal, statement)) == statement;
    }
    statements := AddIfValid(statements, statement);
    emitted := emitted + Emit(statement);
  }

  /** Adds the statement built from `statement` at the end of the list, unless
      the text is blank. */
  function AddIfValid(statements: seq<HiveQueryLanguageStatement>, statement: string): (r: seq<HiveQueryLanguageStatement>)
    ensures Texts(r) == Texts(statements) + Emit(statement)
  {
    if IsValidStatement(statement) then
      var st := ForStatementString(statement);
      assert (statements + [st])[..|statements|] == statements;
      statements + [st]
    else statements
  }
}
