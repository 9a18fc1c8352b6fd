/** The effect of the delimiter-returning string tokenizer that the splitter
    runs over its input: every delimiter character is a token of its own, and
    every maximal run of other characters is one token. */
module Tokenizer {

  /** The delimiters: the SQL special characters `;`, `"`, `'`, `-`, newline,
      and Beeline's `!`. */
  predicate IsSpecial(c: char) {
    c == ';' || c == '"' || c == '\'' || c == '-' || c == '\n' || c == '!'
  }

  /** The splitter's two delimiter sets, as written in the source. */
  const SqlSpecialChars := ";\"'-\n"
  const BeelineSpecialChars := "!"

  /** The delimiters are exactly the characters of the two sets together. */
  lemma SpecialCharsAreDelimiters(c: char)
    ensures IsSpecial(c) <==> c in SqlSpecialChars + BeelineSpecialChars
  {
    var all := SqlSpecialChars + BeelineSpecialChars;
    assert all == [';', '"', '\'', '-', '\n', '!'];
    if c in all {
      var k :| 0 <= k < |all| && all[k] == c;
      assert k == 0 || k == 1 || k == 2 || k == 3 || k == 4 || k == 5;
    }
  }

  /** The text obtained by gluing tokens together in order. */
  function Concat(tokens: seq<string>): string {
    if tokens == [] then "" else tokens[0] + Concat(tokens[1..])
  }

  /** A non-empty run of characters none of which is a delimiter. */
  predicate IsRun(t: string) {
    |t| > 0 && forall k :: 0 <= k < |t| ==> !IsSpecial(t[k])
  }

  /** A token is one delimiter character or a run. */
  predicate IsToken(t: string) {
    (|t| == 1 && IsSpecial(t[0])) || IsRun(t)
  }

  /** What the tokenizer can produce: tokens only, and never two runs side by side
      (runs are maximal). */
  predicate Canonical(tokens: seq<string>) {
    && (forall k :: 0 <= k < |tokens| ==> IsToken(tokens[k]))
    && (forall k :: 0 < k < |tokens| && IsRun(tokens[k - 1]) ==> !IsRun(tokens[k]))
  }

  /** Length of the longest prefix of `s` free of delimiters. */
  function RunLength(s: string): (n: nat)
    ensures n <= |s|
    ensures forall k :: 0 <= k < n ==> !IsSpecial(s[k])
    ensures n == |s| || IsSpecial(s[n])
  {
    if s == [] || IsSpecial(s[0]) then 0 else 1 + RunLength(s[1..])
  }

  /** The token sequence the tokenizer yields for `s`. Gluing the tokens back
      gives `s`, and the sequence is canonical. */
  function Tokenize(s: string): (tokens: seq<string>)
    ensures Concat(tokens) == s
    ensures Canonical(tokens)
    ensures s != [] ==> tokens != [] && tokens[0][0] == s[0]
    decreases |s|
  {
    if s == [] then []
    else
      var n := if IsSpecial(s[0]) then 1 else RunLength(s);
      var rest := Tokenize(s[n..]);
      TokenCons(s, n, rest);
      [s[..n]] + rest
  }

  /** One step of the tokenizer: the first token followed by the tokens of
      what remains. */
  lemma TokenCons(s: string, n: nat, rest: seq<string>)
    requires 0 < n <= |s|
    requires n == (if IsSpecial(s[0]) then 1 else RunLength(s))
    requires Concat(rest) == s[n..] && Canonical(rest)
    requires s[n..] != [] ==> rest != [] && rest[0][0] == s[n]
    ensures Concat([s[..n]] + rest) == s
    ensures Canonical([s[..n]] + rest)
    ensures ([s[..n]] + rest)[0][0] == s[0]
  {
    var tokens := [s[..n]] + rest;
    assert tokens[1..] == rest;
    assert s[..n] + s[n..] == s;
    if !IsSpecial(s[0]) {
      assert IsRun(s[..n]);
      if rest != [] {
        assert tokens[1] == rest[0];
        assert !IsRun(rest[0]) by {
          assert IsSpecial(rest[0][0]);
        }
      }
    }
    forall k | 0 < k < |tokens| ensures IsToken(tokens[k]) {
      assert tokens[k] == rest[k - 1];
    }
    forall k | 1 < k < |tokens| && IsRun(tokens[k - 1]) ensures !IsRun(tokens[k]) {
      assert tokens[k - 1] == rest[k - 2] && tokens[k] == rest[k - 1];
    }
  }

  lemma {:induction false} ConcatAppend(xs: seq<string>, ys: seq<string>)
    ensures Concat(xs + ys) == Concat(xs) + Concat(ys)
  {
    if xs == [] {
      assert xs + ys == ys;
    } else {
      assert (xs + ys)[1..] == xs[1..] + ys;
      ConcatAppend(xs[1..], ys);
    }
  }

  /** Appending one more token to a slice appends its text. */
  lemma ConcatSnoc(tokens: seq<string>, i: nat, j: nat)
    requires i <= j < |tokens|
    ensures Concat(tokens[i..j + 1]) == Concat(tokens[i..j]) + tokens[j]
  {
    assert tokens[i..j + 1] == tokens[i..j] + [tokens[j]];
    ConcatAppend(tokens[i..j], [tokens[j]]);
    assert Concat([tokens[j]]) == tokens[j] + Concat([]);
  }

  /** The same, after a prefix. */
  lemma ConcatSnocAfter(prefix: string, tokens: seq<string>, i: nat, j: nat)
    requires i <= j < |tokens|
    ensures prefix + Concat(tokens[i..j + 1]) == prefix + Concat(tokens[i..j]) + tokens[j]
  {
    ConcatSnoc(tokens, i, j);
  }

  /** Taking the first token off a slice moves its text to the end of what
      precedes the slice. */
  lemma ConcatCons(prefix: string, tokens: seq<string>, i: nat, k: nat)
    requires i < k <= |tokens|
    ensures prefix + Concat(tokens[i..k]) == prefix + tokens[i] + Concat(tokens[i + 1..k])
  {
    assert tokens[i..k][1..] == tokens[i + 1..k];
  }

  lemma CanonicalSlice(tokens: seq<string>, i: nat, j: nat)
    requires Canonical(tokens) && i <= j <= |tokens|
    ensures Canonical(tokens[i..j])
  {
    var sl := tokens[i..j];
    forall k | 0 < k < |sl| && IsRun(sl[k - 1]) ensures !IsRun(sl[k]) {
      assert sl[k - 1] == tokens[i + k - 1] && sl[k] == tokens[i + k];
    }
  }

  /** Two canonical sequences stay canonical when glued around a delimiter. */
  lemma CanonicalJoin(xs: seq<string>, c: char, ys: seq<string>)
    requires Canonical(xs) && Canonical(ys) && IsSpecial(c)
    ensures Canonical(xs + [[c]] + ys)
  {
    var all := xs + [[c]] + ys;
    forall k | 0 <= k < |all| ensures IsToken(all[k]) {
      if k < |xs| { assert all[k] == xs[k]; }
      else if k > |xs| { assert all[k] == ys[k - |xs| - 1]; }
    }
    assert all[|xs|] == [c];
    forall k | 0 < k < |all| && IsRun(all[k - 1]) ensures !IsRun(all[k]) {
      if k < |xs| {
        assert all[k - 1] == xs[k - 1] && all[k] == xs[k];
      } else if k > |xs| + 1 {
        assert all[k - 1] == ys[k - |xs| - 2] && all[k] == ys[k - |xs| - 1];
      }
    }
  }

  /** The first token of a canonical sequence is exactly what the tokenizer
      takes first from the glued text. */
  lemma FirstToken(tokens: seq<string>)
    requires Canonical(tokens) && tokens != []
    ensures var s := Concat(tokens);
      s != [] && (if IsSpecial(s[0]) then 1 else RunLength(s)) == |tokens[0]|
  {
    var t := tokens[0];
    var s := Concat(tokens);
    var r := Concat(tokens[1..]);
    assert s == t + r;
    assert s[0] == t[0];
    if !(|t| == 1 && IsSpecial(t[0])) {
      assert IsRun(t);
      assert forall k :: 0 <= k < |t| ==> s[k] == t[k];
      var n := RunLength(s);
      if |tokens| > 1 {
        var u := tokens[1];
        assert !IsRun(u);
        assert IsToken(u);
        assert tokens[1..][0] == u;
        assert r == u + Concat(tokens[2..]) by {
          assert tokens[1..][1..] == tokens[2..];
        }
        assert s[|t|] == u[0];
      } else {
        assert tokens[1..] == [];
      }
      assert n == |t|;
    }
  }

  /** The tokenizer recovers any canonical token sequence from its text. */
  lemma {:induction false} TokenizeConcat(tokens: seq<string>)
    requires Canonical(tokens)
    ensures Tokenize(Concat(tokens)) == tokens
  {
    if tokens != [] {
      var t := tokens[0];
      var rest := tokens[1..];
      var s := Concat(tokens);
      assert Tokenize(s) == [t] + Tokenize(Concat(rest)) by {
        assert s == t + Concat(rest);
        FirstToken(tokens);
        assert s[..|t|] == t;
        assert s[|t|..] == Concat(rest);
      }
      assert Tokenize(Concat(rest)) == rest by {
        CanonicalSlice(tokens, 1, |tokens|);
        TokenizeConcat(rest);
      }
      assert tokens == [t] + rest;
    }
  }

  /** Splitting a text around one delimiter splits its tokens the same way. */
  lemma TokenizeAround(a: string, c: char, b: string)
    requires IsSpecial(c)
    ensures Tokenize(a + [c] + b) == Tokenize(a) + [[c]] + Tokenize(b)
  {
    var ta := Tokenize(a);
    var tb := Tokenize(b);
    CanonicalJoin(ta, c, tb);
    ConcatAppend(ta, [[c]]);
    assert Concat([[c]]) == [c] by {
      assert [[c]][1..] == [];
    }
    ConcatAppend(ta + [[c]], tb);
    TokenizeConcat(ta + [[c]] + tb);
  }

  /** Text free of delimiters is a single token (or none, when empty). */
  lemma TokenizePlain(s: string)
    requires forall k :: 0 <= k < |s| ==> !IsSpecial(s[k])
    ensures Tokenize(s) == if s == [] then [] else [s]
  {
    if s != [] {
      assert RunLength(s) == |s|;
      assert s[..|s|] == s;
      assert Tokenize(s[|s|..]) == [];
    }
  }

  lemma AppendAssociative<T>(a: seq<T>, b: seq<T>, c: seq<T>)
    ensures a + b + c == a + (b + c)
  {
  }
}
