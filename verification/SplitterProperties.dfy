/** What the splitter promises about whole scripts, proved of `Split`. */
module SplitterProperties {
  import opened Tokenizer
  import opened SplitterSpec

  /** Text made only of `;` and characters up to U+0020. */
  predicate Inert(s: string) {
    forall k :: 0 <= k < |s| ==> s[k] == ';' || s[k] <= ' '
  }

  /** Every token of an inert text is inert. */
  lemma {:induction false} InertTokens(tokens: seq<string>)
    requires Inert(Concat(tokens))
    ensures forall k :: 0 <= k < |tokens| ==> Inert(tokens[k])
  {
    if tokens != [] {
      var rest := Concat(tokens[1..]);
      assert Concat(tokens) == tokens[0] + rest;
      assert Inert(tokens[0]) by {
        forall k | 0 <= k < |tokens[0]| ensures tokens[0][k] == ';' || tokens[0][k] <= ' ' {
          assert tokens[0][k] == Concat(tokens)[k];
        }
      }
      assert Inert(rest) by {
        forall k | 0 <= k < |rest| ensures rest[k] == ';' || rest[k] <= ' ' {
          assert rest[k] == Concat(tokens)[|tokens[0]| + k];
        }
      }
      InertTokens(tokens[1..]);
      forall k | 0 < k < |tokens| ensures Inert(tokens[k]) {
        assert tokens[k] == tokens[1..][k - 1];
      }
    }
  }

  /** From a blank statement, inert tokens emit nothing. */
  lemma {:induction false} InertEmitsNothing(statement: string, tokens: seq<string>)
    requires Blank(statement) && Canonical(tokens)
    requires forall k :: 0 <= k < |tokens| ==> Inert(tokens[k])
    ensures Finish(Scanner(Normal, statement), tokens) == []
    decreases |tokens|
  {
    var sc := Scanner(Normal, statement);
    if tokens == [] {
      assert Text(sc) == statement;
    } else {
      var t := tokens[0];
      assert Inert(t) && IsToken(t);
      CanonicalSlice(tokens, 1, |tokens|);
      assert forall k :: 0 <= k < |tokens[1..]| ==> Inert(tokens[1..][k]) by {
        forall k | 0 <= k < |tokens[1..]| ensures Inert(tokens[1..][k]) {
          assert tokens[1..][k] == tokens[k + 1];
        }
      }
      if t == ";" {
        assert Feed(sc, t) == (Start, []);
        InertEmitsNothing("", tokens[1..]);
      } else {
        assert t[0] == ';' || t[0] <= ' ';
        assert t != "-" && t != "\"" && t != "'" && t != "!";
        assert Feed(sc, t) == (Scanner(Normal, statement + t), []);
        assert Blank(statement + t) by {
          if IsRun(t) {
            forall k | 0 <= k < |t| ensures t[k] <= ' ' {
              assert !IsSpecial(t[k]);
            }
          }
        }
        InertEmitsNothing(statement + t, tokens[1..]);
      }
    }
  }

  /** A script made only of `;` and blank characters (the empty script
      included) holds no statement. */
  lemma SplitOfInert(script: string)
    requires Inert(script)
    ensures Split(script) == []
  {
    InertTokens(Tokenize(script));
    InertEmitsNothing("", Tokenize(script));
  }

  /** A script without any of the delimiters `; " ' - \n !` is one statement
      as it is, or none when it is blank. */
  lemma SplitWithoutDelimiters(script: string)
    requires forall k :: 0 <= k < |script| ==> !IsSpecial(script[k])
    ensures Split(script) == if Blank(script) then [] else [script]
  {
    TokenizePlain(script);
    if script != [] {
      assert script[0] != ';' && script[0] != '-' && script[0] != '"' && script[0] != '\'' && script[0] != '!';
      assert "" + script == script;
      assert Feed(Start, script) == (Scanner(Normal, script), []);
      assert Text(Scanner(Normal, script)) == script;
      assert [script][1..] == [];
      assert Finish(Start, [script]) == Emit(script);
    }
  }

  /** After reading `s` from the start, the splitter is outside any quoted
      literal, line comment and meta-command. */
  predicate AtTopLevel(s: string) {
    After(Start, Tokenize(s)).mode == Normal
  }

  /** A script split at one delimiter: what the part before it emits, then the
      rest read from where that part left the splitter. */
  lemma SplitAround(s1: string, c: char, s2: string)
    requires IsSpecial(c)
    ensures var t1 := Tokenize(s1);
      Split(s1 + [c] + s2) == Emitted(Start, t1) + Finish(After(Start, t1), [[c]] + Tokenize(s2))
  {
    var t1 := Tokenize(s1);
    var rest := [[c]] + Tokenize(s2);
    assert Tokenize(s1 + [c] + s2) == t1 + rest by {
      TokenizeAround(s1, c, s2);
      AppendAssociative(t1, [[c]], Tokenize(s2));
    }
    FinishAppend(Start, t1, rest);
  }

  /** A whole script: what it emits while read, then what is left at its end. */
  lemma SplitWhole(s: string)
    ensures var t := Tokenize(s);
      Split(s) == Emitted(Start, t) + Emit(Text(After(Start, t)))
  {
    var t := Tokenize(s);
    FinishAppend(Start, t, []);
    assert t + [] == t;
  }

  /** A `;` read at top level separates two scripts that split independently:
      it closes the statement before it and is itself dropped. */
  lemma SemicolonSeparates(s1: string, s2: string)
    requires AtTopLevel(s1)
    ensures Split(s1 + ";" + s2) == Split(s1) + Split(s2)
  {
    var t1 := Tokenize(s1);
    var t2 := Tokenize(s2);
    var sc := After(Start, t1);
    var before := Emitted(Start, t1);
    var closed := Emit(sc.statement);
    assert Split(s1 + ";" + s2) == before + (closed + Split(s2)) by {
      SplitAround(s1, ';', s2);
      assert Finish(sc, [";"] + t2) == closed + Finish(Start, t2) by {
        assert ([";"] + t2)[0] == ";" && ([";"] + t2)[1..] == t2;
      }
    }
    assert Split(s1) == before + closed by {
      SplitWhole(s1);
      assert Text(sc) == sc.statement;
    }
    AppendAssociative(before, closed, Split(s2));
  }

  lemma InertAppend(a: string, b: string)
    requires Inert(a) && Inert(b)
    ensures Inert(a + b)
  {
    forall k | 0 <= k < |a + b| ensures (a + b)[k] == ';' || (a + b)[k] <= ' ' {
      if k >= |a| {
        assert (a + b)[k] == b[k - |a|];
      }
    }
  }

  /** The statements of a script, placed between the gaps they were cut from. */
  function Weave(gaps: seq<string>, statements: seq<string>): string
    requires |gaps| == |statements| + 1
  {
    if statements == [] then gaps[0]
    else gaps[0] + statements[0] + Weave(gaps[1..], statements[1..])
  }

  lemma WeavePrepend(prefix: string, gaps: seq<string>, statements: seq<string>)
    requires |gaps| == |statements| + 1
    ensures Weave([prefix + gaps[0]] + gaps[1..], statements) == prefix + Weave(gaps, statements)
  {
    var moved := [prefix + gaps[0]] + gaps[1..];
    assert moved[0] == prefix + gaps[0] && moved[1..] == gaps[1..];
    if statements != [] {
      var tail := statements[0] + Weave(gaps[1..], statements[1..]);
      AppendAssociative(prefix + gaps[0], [], tail);
      assert Weave(moved, statements) == prefix + gaps[0] + tail;
      AppendAssociative(gaps[0], statements[0], Weave(gaps[1..], statements[1..]));
      AppendAssociative(prefix, gaps[0], tail);
    }
  }

  /** Closing a statement: the closed text, unless blank, becomes the first
      statement, and the dropped text goes into the gap after it. */
  lemma LayoutAfterClose(closed: string, dropped: string, gaps: seq<string>, statements: seq<string>)
      returns (joined: seq<string>)
    requires Inert(dropped) && |gaps| == |statements| + 1
    requires forall k :: 0 <= k < |gaps| ==> Inert(gaps[k])
    ensures |joined| == |Emit(closed) + statements| + 1
    ensures forall k :: 0 <= k < |joined| ==> Inert(joined[k])
    ensures Weave(joined, Emit(closed) + statements) == closed + dropped + Weave(gaps, statements)
  {
    InertAppend(dropped, gaps[0]);
    WeavePrepend(dropped, gaps, statements);
    var after := [dropped + gaps[0]] + gaps[1..];
    assert forall k :: 0 <= k < |after| ==> Inert(after[k]) by {
      forall k | 0 < k < |after| ensures Inert(after[k]) {
        assert after[k] == gaps[k];
      }
    }
    if Blank(closed) {
      assert Emit(closed) + statements == statements;
      assert Inert(closed);
      InertAppend(closed, dropped + gaps[0]);
      WeavePrepend(closed, after, statements);
      joined := [closed + (dropped + gaps[0])] + gaps[1..];
      assert joined == [closed + after[0]] + after[1..];
      forall k | 0 < k < |joined| ensures Inert(joined[k]) {
        assert joined[k] == gaps[k];
      }
      AppendAssociative(closed, dropped, Weave(gaps, statements));
    } else {
      var all := [closed] + statements;
      assert Emit(closed) + statements == all;
      joined := [""] + after;
      assert all[0] == closed && all[1..] == statements && joined[1..] == after;
      assert Weave(joined, all) == "" + closed + Weave(after, statements);
      assert "" + closed == closed;
      AppendAssociative(closed, dropped, Weave(gaps, statements));
    }
  }

  /** `text` is the statements, verbatim and in order, with the inert gaps
      between, before and after them. */
  predicate Layout(gaps: seq<string>, statements: seq<string>, text: string) {
    && |gaps| == |statements| + 1
    && (forall k :: 0 <= k < |gaps| ==> Inert(gaps[k]))
    && Weave(gaps, statements) == text
  }

  /** What the scanner emits lies, verbatim and in order, in what it reads: the
      text read and the tokens still to come are the statements with inert gaps
      (only `;` and blank characters) between, before and after them. */
  lemma {:induction false} FinishLayout(sc: Scanner, tokens: seq<string>) returns (gaps: seq<string>)
    ensures Layout(gaps, Finish(sc, tokens), Text(sc) + Concat(tokens))
    decreases |tokens|
  {
    var text := Text(sc);
    if tokens == [] {
      assert text + Concat([]) == text;
      gaps := LayoutAfterClose(text, "", [""], []);
      assert Emit(text) + [] == Emit(text);
      assert text + "" + "" == text;
    } else {
      var t := tokens[0];
      var rest := tokens[1..];
      var step := Feed(sc, t);
      var next := step.0;
      assert Finish(sc, tokens) == step.1 + Finish(next, rest);
      assert Concat(tokens) == t + Concat(rest);
      AppendAssociative(text, t, Concat(rest));
      var later := FinishLayout(next, rest);
      FeedCases(sc, t);
      if step.1 == [] && Text(next) == text + t {
        gaps := later;
        assert step.1 + Finish(next, rest) == Finish(next, rest);
      } else if next == Start && sc.mode == Normal && t == ";" && step.1 == Emit(text) {
        assert Text(Start) == "" && "" + Concat(rest) == Concat(rest);
        gaps := LayoutAfterClose(text, ";", later, Finish(next, rest));
      } else {
        assert next == Start && step.1 == Emit(text + t);
        assert Text(Start) == "" && "" + Concat(rest) == Concat(rest);
        gaps := LayoutAfterClose(text + t, "", later, Finish(next, rest));
        assert text + t + "" == text + t;
      }
    }
  }

  /** The statements of a script are pieces of it, kept verbatim and in order;
      what lies between, before and after them is only `;` and blank
      characters. */
  lemma SplitLayout(script: string) returns (gaps: seq<string>)
    ensures Layout(gaps, Split(script), script)
  {
    var tokens := Tokenize(script);
    gaps := FinishLayout(Start, tokens);
    assert Split(script) == Finish(Start, tokens);
    assert Text(Start) + Concat(tokens) == script by {
      assert Text(Start) == "" && "" + script == script;
    }
  }

  /** A stretch of tokens read from the start without emitting anything, which
      left the scanner in `sc`. */
  predicate Segment(segment: seq<string>, sc: Scanner) {
    && Canonical(segment)
    && After(Start, segment) == sc
    && Emitted(Start, segment) == []
    && Text(sc) == Concat(segment)
  }

  /** The text of such a stretch, split on its own, is emitted at its end. */
  lemma SegmentResplits(segment: seq<string>, sc: Scanner)
    requires Segment(segment, sc)
    ensures Tokenize(Text(sc)) == segment
    ensures Split(Text(sc)) == Emit(Text(sc))
  {
    TokenizeConcat(segment);
    FinishAppend(Start, segment, []);
    assert segment + [] == segment;
  }

  /** One more token that emits nothing extends the stretch. */
  lemma SegmentExtends(segment: seq<string>, sc: Scanner, token: string)
    requires Segment(segment, sc) && Canonical(segment + [token])
    requires Feed(sc, token).1 == [] && Text(Feed(sc, token).0) == Text(sc) + token
    ensures Segment(segment + [token], Feed(sc, token).0)
  {
    AfterAppend(Start, segment, [token]);
    assert [token][1..] == [];
    EmittedAppend(Start, segment, [token]);
    ConcatAppend(segment, [token]);
    assert Concat([token]) == token + Concat([]);
  }

  /** One more token after a stretch is one more token of its text. */
  lemma SegmentTokens(segment: seq<string>, sc: Scanner, token: string)
    requires Segment(segment, sc) && Canonical(segment + [token])
    ensures Tokenize(Text(sc) + token) == segment + [token]
  {
    var whole := segment + [token];
    assert Concat(whole) == Text(sc) + token by {
      ConcatAppend(segment, [token]);
      assert Concat([token]) == token by {
        assert [token][1..] == [];
        assert token + "" == token;
      }
    }
    TokenizeConcat(whole);
  }

  /** A stretch ended by a token that closes a meta-command emits just that
      command and returns to the start. */
  lemma SegmentCloses(segment: seq<string>, sc: Scanner, token: string)
    requires Segment(segment, sc)
    requires Feed(sc, token) == (Start, Emit(Text(sc) + token))
    ensures Finish(Start, segment + [token]) == Emit(Text(sc) + token)
    ensures After(Start, segment + [token]) == Start
  {
    assert [token][1..] == [];
    AfterAppend(Start, segment, [token]);
    EmittedAppend(Start, segment, [token]);
    FinishAppend(Start, segment + [token], []);
    assert segment + [token] + [] == segment + [token];
    assert Text(Start) == "";
  }

  /** A meta-command closed by the newline `token` at the end of the stretch,
      split on its own, is emitted whole, and leaves the splitter at top level. */
  lemma MetaCommandResplits(segment: seq<string>, sc: Scanner, token: string)
    requires Segment(segment, sc) && Canonical(segment + [token])
    requires Feed(sc, token) == (Start, Emit(Text(sc) + token))
    ensures Split(Text(sc) + token) == Emit(Text(sc) + token)
    ensures AtTopLevel(Text(sc) + token)
  {
    SegmentTokens(segment, sc, token);
    SegmentCloses(segment, sc, token);
  }

  /** Every statement of the list, split on its own, is exactly itself and
      leaves the splitter at top level. */
  predicate ResplitAtTop(statements: seq<string>) {
    forall t :: t in statements ==> Split(t) == [t] && AtTopLevel(t)
  }

  lemma ResplitAtTopJoin(a: seq<string>, b: seq<string>)
    requires ResplitAtTop(a) && ResplitAtTop(b)
    ensures ResplitAtTop(a + b)
  {
  }

  lemma ResplitAtTopSplit(statements: seq<string>)
    requires ResplitAtTop(statements) && statements != []
    ensures Split(statements[0]) == [statements[0]] && AtTopLevel(statements[0])
    ensures ResplitAtTop(statements[1..])
  {
    assert statements[0] in statements;
    forall t | t in statements[1..] ensures Split(t) == [t] && AtTopLevel(t) {
      assert t in statements;
    }
  }

  /** The statement closed by a token that ends a stretch resplits on its own. */
  lemma ClosedResplits(segment: seq<string>, sc: Scanner, token: string)
    requires Segment(segment, sc) && Canonical(segment + [token])
    requires || (sc.mode == Normal && token == ";" && Feed(sc, token) == (Start, Emit(Text(sc))))
             || Feed(sc, token) == (Start, Emit(Text(sc) + token))
    ensures ResplitAtTop(Feed(sc, token).1)
  {
    if sc.mode == Normal && token == ";" && Feed(sc, token) == (Start, Emit(Text(sc))) {
      SegmentResplits(segment, sc);
      assert sc.mode == Normal;
    } else {
      MetaCommandResplits(segment, sc, token);
    }
  }

  /** The tokens that follow a stretch stay canonical after it. */
  lemma CanonicalStep(segment: seq<string>, tokens: seq<string>)
    requires Canonical(segment + tokens) && tokens != []
    ensures Canonical(segment + [tokens[0]]) && Canonical(tokens[1..])
    ensures segment + [tokens[0]] + tokens[1..] == segment + tokens
  {
    var all := segment + tokens;
    assert all == segment + [tokens[0]] + tokens[1..];
    CanonicalSlice(all, 0, |segment| + 1);
    assert all[..|segment| + 1] == segment + [tokens[0]];
    CanonicalSlice(all, |segment| + 1, |all|);
    assert all[|segment| + 1..] == tokens[1..];
  }

  /** Every statement emitted after such a stretch splits, on its own, into
      exactly itself; those closed before the end of the input also leave the
      splitter at top level. */
  lemma {:induction false} EmittedResplit(segment: seq<string>, sc: Scanner, tokens: seq<string>)
    requires Segment(segment, sc) && Canonical(segment + tokens)
    ensures ResplitAtTop(Emitted(sc, tokens))
    ensures forall t :: t in Emit(Text(After(sc, tokens))) ==> Split(t) == [t]
    decreases |tokens|
  {
    if tokens == [] {
      SegmentResplits(segment, sc);
    } else {
      var x := tokens[0];
      var rest := tokens[1..];
      var step := Feed(sc, x);
      var next := step.0;
      assert Emitted(sc, tokens) == step.1 + Emitted(next, rest);
      assert After(sc, tokens) == After(next, rest);
      CanonicalStep(segment, tokens);
      if step.1 == [] && Text(next) == Text(sc) + x {
        assert Segment(segment + [x], next) by {
          SegmentExtends(segment, sc, x);
        }
        EmittedResplit(segment + [x], next, rest);
        assert step.1 + Emitted(next, rest) == Emitted(next, rest);
      } else {
        assert next == Start && ResplitAtTop(step.1) by {
          FeedCases(sc, x);
          ClosedResplits(segment, sc, x);
        }
        assert Segment([], Start) && [] + rest == rest by {
          assert Text(Start) == "";
        }
        EmittedResplit([], Start, rest);
        ResplitAtTopJoin(step.1, Emitted(next, rest));
      }
    }
  }

  /** Every statement of a script, split on its own, is exactly itself. */
  lemma StatementsResplit(script: string)
    ensures forall t :: t in Split(script) ==> Split(t) == [t]
  {
    var tokens := Tokenize(script);
    var emitted := Emitted(Start, tokens);
    var last := Emit(Text(After(Start, tokens)));
    assert ResplitAtTop(emitted) && forall t :: t in last ==> Split(t) == [t] by {
      assert Segment([], Start) && [] + tokens == tokens by {
        assert Text(Start) == "";
      }
      EmittedResplit([], Start, tokens);
    }
    assert Split(script) == emitted + last by {
      SplitWhole(script);
    }
    forall t | t in Split(script) ensures Split(t) == [t] {
      assert t in emitted || t in last;
    }
  }

  /** Statements written back as one script, each closed by a `;` except the
      last. */
  function Join(statements: seq<string>): string {
    if statements == [] then ""
    else if |statements| == 1 then statements[0]
    else statements[0] + ";" + Join(statements[1..])
  }

  /** No statement or a single one that resplits to itself. */
  lemma JoinLast(last: seq<string>)
    requires |last| <= 1 && forall t :: t in last ==> Split(t) == [t]
    ensures Split(Join(last)) == last
  {
    if last == [] {
      SplitOfInert("");
    } else {
      assert last[0] in last;
    }
  }

  /** One statement at top level in front of a non-empty joined list. */
  lemma JoinStep(f: string, tail: seq<string>)
    requires Split(f) == [f] && AtTopLevel(f)
    requires tail != [] && Split(Join(tail)) == tail
    ensures Split(Join([f] + tail)) == [f] + tail
  {
    var all := [f] + tail;
    assert all[0] == f && all[1..] == tail;
    assert Join(all) == f + ";" + Join(tail);
    SemicolonSeparates(f, Join(tail));
  }

  /** Statements that each resplit to themselves, all but the last at top level,
      split back into the same list once joined. */
  lemma {:induction false} JoinResplits(front: seq<string>, last: seq<string>)
    requires ResplitAtTop(front)
    requires |last| <= 1 && forall t :: t in last ==> Split(t) == [t]
    ensures Split(Join(front + last)) == front + last
    decreases |front|
  {
    if front == [] {
      JoinLast(last);
      assert front + last == last;
    } else if |front + last| == 1 {
      JoinLast(front);
      assert front + last == front;
    } else {
      var f := front[0];
      var tail := front[1..] + last;
      ResplitAtTopSplit(front);
      JoinResplits(front[1..], last);
      assert [f] + tail == front + last by {
        AppendAssociative([f], front[1..], last);
        assert [f] + front[1..] == front;
      }
      JoinStep(f, tail);
    }
  }

  /** Joining the statements of a script with `;` and splitting again gives
      back the same statements. */
  lemma SplitRejoin(script: string)
    ensures Split(Join(Split(script))) == Split(script)
  {
    var tokens := Tokenize(script);
    assert Segment([], Start) by {
      assert Text(Start) == "";
    }
    assert [] + tokens == tokens;
    EmittedResplit([], Start, tokens);
    SplitWhole(script);
    JoinResplits(Emitted(Start, tokens), Emit(Text(After(Start, tokens))));
  }
}
