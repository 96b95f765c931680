/** The tokeniser of `compact_fragment` (src/compactor.rs:80-96): the regex rewrite
    `(?:([a-zA-Z])([A-Z0-9]))|[-_.]` -> `"$1 $2"` followed by `split_whitespace`. */
module Tokenizer {
  import opened Chars
  import opened Joins

  /** `RE.replace_all(frag, "$1 $2")`, scanning left to right with non-overlapping matches:
      a letter followed by an upper-case letter or a digit is rewritten to the two characters
      with a space between them, and both are consumed; each `-`, `_` or `.` becomes one space
      (neither group takes part in that alternative, so `$1` and `$2` are empty). */
  function Rewrite(s: string): string
    decreases |s|
  {
    if s == [] then []
    else if |s| >= 2 && IsLetter(s[0]) && IsUpperOrDigit(s[1]) then [s[0], ' ', s[1]] + Rewrite(s[2..])
    else if IsDelim(s[0]) then " " + Rewrite(s[1..])
    else [s[0]] + Rewrite(s[1..])
  }

  /** The length of the run of non-whitespace characters that starts `t`. */
  function WordLen(t: string): (n: nat)
    ensures n <= |t|
    ensures t != [] && !IsSpace(t[0]) ==> n >= 1
  {
    if t == [] || IsSpace(t[0]) then 0 else 1 + WordLen(t[1..])
  }

  /** The leading run is whitespace-free and is ended by whitespace or by the end of `t`. */
  lemma {:induction false} WordLenIsRun(t: string)
    ensures NoSpace(t[..WordLen(t)])
    ensures WordLen(t) < |t| ==> IsSpace(t[WordLen(t)])
  {
    if t != [] && !IsSpace(t[0]) {
      WordLenIsRun(t[1..]);
      assert t[..WordLen(t)] == [t[0]] + t[1..][..WordLen(t[1..])];
    }
  }

  /** `str::split_whitespace`: the maximal runs of non-whitespace characters, in order. */
  function Words(t: string): seq<string>
    decreases |t|
  {
    if t == [] then []
    else if IsSpace(t[0]) then Words(t[1..])
    else [t[..WordLen(t)]] + Words(t[WordLen(t)..])
  }

  /** The token sequence `compact_fragment` works on (before `truncate`). */
  function Tokens(frag: string): (toks: seq<string>)
    ensures forall k :: 0 <= k < |toks| ==> IsWord(toks[k])
  {
    WordsShape(Rewrite(frag));
    assert forall k :: 0 <= k < |Words(Rewrite(frag))| ==> Words(Rewrite(frag))[k] in Words(Rewrite(frag));
    Words(Rewrite(frag))
  }

  /** A token: non-empty and free of whitespace. */
  predicate IsWord(w: string) {
    w != [] && NoSpace(w)
  }

  /** No whitespace anywhere in `w` (the empty string included). */
  predicate NoSpace(w: string) {
    forall j :: 0 <= j < |w| ==> !IsSpace(w[j])
  }

  /** A fragment the tokeniser never breaks: no separator, no whitespace and no letter
      followed by an upper-case letter or digit. */
  predicate NoBreaks(s: string) {
    (forall i :: 0 <= i < |s| ==> !IsDelim(s[i]) && !IsSpace(s[i])) &&
    (forall i :: 0 <= i < |s| - 1 ==> !(IsLetter(s[i]) && IsUpperOrDigit(s[i + 1])))
  }

  /** The characters of `s` that survive tokenisation: everything but separators and whitespace. */
  function Significant(s: string): string {
    if s == [] then []
    else if IsDelim(s[0]) || IsSpace(s[0]) then Significant(s[1..])
    else [s[0]] + Significant(s[1..])
  }

  function NonSpace(t: string): string {
    if t == [] then [] else if IsSpace(t[0]) then NonSpace(t[1..]) else [t[0]] + NonSpace(t[1..])
  }

  function Flatten(ws: seq<string>): string {
    if ws == [] then [] else ws[0] + Flatten(ws[1..])
  }

  // ---------------------------------------------------------------------------
  // split_whitespace

  /** A whitespace-free prefix followed by whitespace (or nothing) is exactly the first run. */
  lemma {:induction false} WordLenOfPrefix(w: string, rest: string)
    requires NoSpace(w)
    requires rest == [] || IsSpace(rest[0])
    ensures WordLen(w + rest) == |w|
  {
    if w != [] {
      assert (w + rest)[1..] == w[1..] + rest;
      WordLenOfPrefix(w[1..], rest);
    }
  }

  /** A whitespace-free string splits into itself alone, or into nothing when empty. */
  lemma WordsOfRun(w: string)
    requires NoSpace(w)
    ensures Words(w) == if w == [] then [] else [w]
  {
    if w != [] {
      WordLenOfPrefix(w, []);
      assert w + [] == w;
      assert w[..|w|] == w;
    }
  }

  /** The run at the front is unaffected by what follows a later whitespace character. */
  lemma WordLenBeforeBreak(a: string, c: char, b: string)
    requires IsSpace(c)
    ensures WordLen(a + [c] + b) == WordLen(a)
  {
    var n := WordLen(a);
    WordLenIsRun(a);
    assert a + [c] + b == a[..n] + (a[n..] + [c] + b);
    WordLenOfPrefix(a[..n], a[n..] + [c] + b);
  }

  /** Whitespace splits independently on both sides: the words of `a`, then those of `b`. */
  lemma {:induction false} WordsAppend(a: string, c: char, b: string)
    requires IsSpace(c)
    ensures Words(a + [c] + b) == Words(a) + Words(b)
    decreases |a|
  {
    var t := a + [c] + b;
    if a == [] {
      assert t == [c] + b && t[1..] == b;
    } else if IsSpace(a[0]) {
      assert t[1..] == a[1..] + [c] + b;
      WordsAppend(a[1..], c, b);
    } else {
      var n := WordLen(a);
      WordLenBeforeBreak(a, c, b);
      assert t[..n] == a[..n];
      assert t[n..] == a[n..] + [c] + b;
      WordsAppend(a[n..], c, b);
    }
  }

  /** A whitespace character ends the current run: the run (if any) becomes a word and
      splitting resumes after the whitespace. */
  lemma WordsAfterBreak(w: string, c: char, rest: string)
    requires NoSpace(w)
    requires IsSpace(c)
    ensures Words(w + ([c] + rest)) == (if w == [] then [] else [w]) + Words(rest)
  {
    WordsAppend(w, c, rest);
    assert w + ([c] + rest) == w + [c] + rest;
    WordsOfRun(w);
  }

  /** Every word is non-empty, whitespace-free and made of characters of the input. */
  lemma {:induction false} WordsShape(t: string)
    ensures forall w :: w in Words(t) ==> IsWord(w) && forall c :: c in w ==> c in t
    decreases |t|
  {
    if t != [] {
      if IsSpace(t[0]) {
        WordsShape(t[1..]);
      } else {
        var n := WordLen(t);
        WordLenIsRun(t);
        WordsShape(t[n..]);
        assert forall c :: c in t[..n] ==> c in t;
        assert forall c :: c in t[n..] ==> c in t;
      }
    }
  }

  lemma {:induction false} NonSpaceAppend(a: string, b: string)
    ensures NonSpace(a + b) == NonSpace(a) + NonSpace(b)
  {
    if a != [] {
      assert (a + b)[1..] == a[1..] + b;
      NonSpaceAppend(a[1..], b);
    } else {
      assert a + b == b;
    }
  }

  lemma {:induction false} NonSpaceOfRun(w: string)
    requires NoSpace(w)
    ensures NonSpace(w) == w
  {
    if w != [] {
      NonSpaceOfRun(w[1..]);
    }
  }

  /** Splitting loses nothing but the whitespace: the words, concatenated, are the
      input with its whitespace removed. */
  lemma {:induction false} FlattenWords(t: string)
    ensures Flatten(Words(t)) == NonSpace(t)
    decreases |t|
  {
    if t != [] {
      if IsSpace(t[0]) {
        FlattenWords(t[1..]);
      } else {
        var n := WordLen(t);
        WordLenIsRun(t);
        FlattenWords(t[n..]);
        assert t == t[..n] + t[n..];
        NonSpaceAppend(t[..n], t[n..]);
        NonSpaceOfRun(t[..n]);
      }
    }
  }

  // ---------------------------------------------------------------------------
  // the regex rewrite

  lemma NonSpaceOfPair(a: char, b: char, r: string)
    requires !IsSpace(a) && !IsSpace(b)
    ensures NonSpace([a, ' ', b] + r) == [a, b] + NonSpace(r)
  {
    var t := [a, ' ', b] + r;
    assert ([b] + r)[1..] == r;
    assert NonSpace([b] + r) == [b] + NonSpace(r);
    assert ([' ', b] + r)[1..] == [b] + r;
    assert NonSpace([' ', b] + r) == [b] + NonSpace(r);
    assert t[1..] == [' ', b] + r;
  }

  lemma SignificantOfPair(s: string)
    requires |s| >= 2 && IsLetter(s[0]) && IsUpperOrDigit(s[1])
    ensures Significant(s) == [s[0], s[1]] + Significant(s[2..])
  {
    assert s[1..][1..] == s[2..];
    assert Significant(s[1..]) == [s[1]] + Significant(s[2..]);
    AppendAssoc([s[0]], [s[1]], Significant(s[2..]));
    assert [s[0]] + [s[1]] == [s[0], s[1]];
  }

  /** The rewrite keeps every significant character, in order, and turns each separator
      into whitespace: with whitespace removed it is the fragment's significant characters. */
  lemma {:induction false} RewriteKeepsSignificant(s: string)
    ensures NonSpace(Rewrite(s)) == Significant(s)
    decreases |s|
  {
    if s != [] {
      if |s| >= 2 && IsLetter(s[0]) && IsUpperOrDigit(s[1]) {
        RewriteKeepsSignificant(s[2..]);
        NonSpaceOfPair(s[0], s[1], Rewrite(s[2..]));
        SignificantOfPair(s);
      } else if IsDelim(s[0]) {
        RewriteKeepsSignificant(s[1..]);
        NonSpaceAppend(" ", Rewrite(s[1..]));
      } else {
        RewriteKeepsSignificant(s[1..]);
        NonSpaceAppend([s[0]], Rewrite(s[1..]));
      }
    }
  }

  /** The rewrite introduces only spaces and removes every separator. */
  lemma {:induction false} RewriteChars(s: string)
    ensures forall c :: c in Rewrite(s) ==> c == ' ' || (c in s && !IsDelim(c))
    decreases |s|
  {
    if s != [] {
      if |s| >= 2 && IsLetter(s[0]) && IsUpperOrDigit(s[1]) {
        RewriteChars(s[2..]);
        assert forall c :: c in s[2..] ==> c in s;
      } else {
        RewriteChars(s[1..]);
        assert forall c :: c in s[1..] ==> c in s;
      }
    }
  }

  /** The rewrite scans `a` the same way inside `a + b` unless `b` starts with a character
      that could pair with the last character of `a`. */
  lemma {:induction false} RewriteAppend(a: string, b: string)
    requires b == [] || !IsUpperOrDigit(b[0])
    ensures Rewrite(a + b) == Rewrite(a) + Rewrite(b)
    decreases |a|
  {
    var t := a + b;
    if a == [] {
      assert t == b && Rewrite(a) == [];
      assert Rewrite(a) + Rewrite(b) == Rewrite(b);
    } else if |a| >= 2 && IsLetter(a[0]) && IsUpperOrDigit(a[1]) {
      var h := [a[0], ' ', a[1]];
      assert t[0] == a[0] && t[1] == a[1] && t[2..] == a[2..] + b;
      RewriteAppend(a[2..], b);
      assert Rewrite(t) == h + (Rewrite(a[2..]) + Rewrite(b));
      assert Rewrite(a) == h + Rewrite(a[2..]);
      AppendAssoc(h, Rewrite(a[2..]), Rewrite(b));
    } else {
      var h := [if IsDelim(a[0]) then ' ' else a[0]];
      assert t[0] == a[0] && t[1..] == a[1..] + b;
      assert !(|t| >= 2 && IsLetter(t[0]) && IsUpperOrDigit(t[1])) by {
        if |a| >= 2 { assert t[1] == a[1]; } else if |t| >= 2 { assert t[1] == b[0]; }
      }
      RewriteAppend(a[1..], b);
      assert Rewrite(t) == h + (Rewrite(a[1..]) + Rewrite(b));
      assert Rewrite(a) == h + Rewrite(a[1..]);
      AppendAssoc(h, Rewrite(a[1..]), Rewrite(b));
    }
  }

  /** A fragment without break points is left alone by the rewrite. */
  lemma {:induction false} RewriteNoBreaks(s: string)
    requires NoBreaks(s)
    ensures Rewrite(s) == s
    decreases |s|
  {
    if s != [] {
      assert NoBreaks(s[1..]);
      RewriteNoBreaks(s[1..]);
    }
  }

  // ---------------------------------------------------------------------------
  // properties of the token sequence

  /** Tokens are non-empty, contain neither whitespace nor separators, are made of the
      fragment's characters and, concatenated, give back exactly its significant characters. */
  lemma TokensContent(frag: string)
    ensures forall w :: w in Tokens(frag) ==>
      IsWord(w) && forall c :: c in w ==> c in frag && !IsDelim(c)
    ensures Flatten(Tokens(frag)) == Significant(frag)
  {
    WordsShape(Rewrite(frag));
    RewriteChars(frag);
    FlattenWords(Rewrite(frag));
    RewriteKeepsSignificant(frag);
  }

  /** A separator or whitespace character splits the token sequence: the tokens of the
      left part followed by those of the right part. */
  lemma TokensSplitAt(a: string, d: char, b: string)
    requires IsDelim(d) || IsSpace(d)
    ensures Tokens(a + [d] + b) == Tokens(a) + Tokens(b)
  {
    assert a + [d] + b == a + ([d] + b);
    RewriteAppend(a, [d] + b);
    assert ([d] + b)[1..] == b;
    var sp := if IsDelim(d) then ' ' else d;
    assert Rewrite([d] + b) == [sp] + Rewrite(b);
    assert Rewrite(a) + ([sp] + Rewrite(b)) == Rewrite(a) + [sp] + Rewrite(b);
    WordsAppend(Rewrite(a), sp, Rewrite(b));
  }

  /** Two unbreakable strings stay unbreakable side by side unless the first ends in a
      letter and the second starts with an upper-case letter or digit. */
  lemma NoBreaksAppend(a: string, b: string)
    requires NoBreaks(a) && NoBreaks(b)
    requires a == [] || b == [] || !(IsLetter(a[|a| - 1]) && IsUpperOrDigit(b[0]))
    ensures NoBreaks(a + b)
  {
    var t := a + b;
    forall i | 0 <= i < |t| - 1
      ensures !(IsLetter(t[i]) && IsUpperOrDigit(t[i + 1]))
    {
      if i + 1 < |a| {
        assert t[i] == a[i] && t[i + 1] == a[i + 1];
      } else if i >= |a| {
        assert t[i] == b[i - |a|] && t[i + 1] == b[i + 1 - |a|];
      }
    }
  }

  /** A non-empty fragment without break points is a single token. */
  lemma SingleToken(s: string)
    requires s != [] && NoBreaks(s)
    ensures Tokens(s) == [s]
  {
    RewriteNoBreaks(s);
    WordsOfRun(s);
  }

  /** Unbreakable words joined by `-`, `_`, `.` or whitespace tokenise back into those
      words (kebab-case, snake_case, dotted and spaced names). */
  lemma {:induction false} TokensOfJoinedWords(ws: seq<string>, d: char)
    requires IsDelim(d) || IsSpace(d)
    requires forall k :: 0 <= k < |ws| ==> ws[k] != [] && NoBreaks(ws[k])
    ensures Tokens(JoinWith(ws, [d])) == ws
  {
    if |ws| == 0 {
      assert Rewrite([]) == [];
    } else if |ws| == 1 {
      SingleToken(ws[0]);
    } else {
      TokensOfJoinedWords(ws[1..], d);
      TokensSplitAt(ws[0], d, JoinWith(ws[1..], [d]));
      SingleToken(ws[0]);
      assert ws == [ws[0]] + ws[1..];
    }
  }

  /** A non-empty run of lower-case letters. */
  predicate LowerRun(w: string) {
    w != [] && forall i :: 0 <= i < |w| ==> 'a' <= w[i] <= 'z'
  }

  /** A capitalised word: an upper-case letter followed by a lower-case run. */
  predicate Capitalised(w: string) {
    |w| >= 2 && 'A' <= w[0] <= 'Z' && LowerRun(w[1..])
  }

  /** Every word of `cs` is capitalised. */
  predicate AllCapitalised(cs: seq<string>) {
    cs == [] || (Capitalised(cs[0]) && AllCapitalised(cs[1..]))
  }

  /** Whitespace-free words joined by one whitespace character split back into those words. */
  lemma {:induction false} WordsOfJoined(ws: seq<string>, c: char)
    requires IsSpace(c)
    requires forall k :: 0 <= k < |ws| ==> IsWord(ws[k])
    ensures Words(JoinWith(ws, [c])) == ws
  {
    if |ws| == 1 {
      WordsOfRun(ws[0]);
    } else if |ws| > 1 {
      WordsOfJoined(ws[1..], c);
      WordsAppend(ws[0], c, JoinWith(ws[1..], [c]));
      WordsOfRun(ws[0]);
      assert ws == [ws[0]] + ws[1..];
    }
  }

  /** Inside a lower-case run nothing matches; at its last letter the following upper-case
      letter or digit is paired with it and split off. */
  lemma {:induction false} RewriteLowerThenUpper(w: string, u: char, r: string)
    requires LowerRun(w) && IsUpperOrDigit(u)
    ensures Rewrite(w + [u] + r) == w + [' ', u] + Rewrite(r)
  {
    var t := w + [u] + r;
    if |w| == 1 {
      assert t[2..] == r;
    } else {
      assert t[1..] == w[1..] + [u] + r;
      RewriteLowerThenUpper(w[1..], u, r);
      assert [w[0]] + (w[1..] + [' ', u] + Rewrite(r)) == w + [' ', u] + Rewrite(r);
    }
  }

  /** The text of a capitalised word and the words after it: its capital, then the rest. */
  lemma CamelText(w: string, c0: string, cs: seq<string>)
    requires c0 != []
    ensures w + Flatten([c0] + cs) == w + [c0[0]] + (c0[1..] + Flatten(cs))
  {
    assert ([c0] + cs)[1..] == cs;
    assert c0 == [c0[0]] + c0[1..];
  }

  /** The spaced-out words, with the capital of the second word split from its tail. */
  lemma CamelJoin(w: string, c0: string, cs: seq<string>)
    requires c0 != []
    ensures JoinWith([w] + ([c0] + cs), " ") == w + [' ', c0[0]] + JoinWith([c0[1..]] + cs, " ")
  {
    assert ([w] + ([c0] + cs))[1..] == [c0] + cs;
    assert c0 == [c0[0]] + c0[1..];
    JoinExtendFirst([c0[0]], c0[1..], cs, " ");
  }

  /** One camelCase boundary: the capital after a lower-case word is split off. */
  lemma CamelStep(w: string, c0: string, cs: seq<string>)
    requires LowerRun(w) && Capitalised(c0)
    requires Rewrite(c0[1..] + Flatten(cs)) == JoinWith([c0[1..]] + cs, " ")
    ensures Rewrite(w + Flatten([c0] + cs)) == JoinWith([w] + ([c0] + cs), " ")
  {
    CamelText(w, c0, cs);
    RewriteLowerThenUpper(w, c0[0], c0[1..] + Flatten(cs));
    CamelJoin(w, c0, cs);
  }

  /** A lower-case word followed by capitalised words is rewritten to those words separated
      by spaces. */
  lemma {:induction false} RewriteCamel(w: string, cs: seq<string>)
    requires LowerRun(w) && AllCapitalised(cs)
    ensures Rewrite(w + Flatten(cs)) == JoinWith([w] + cs, " ")
    decreases |cs|
  {
    if cs == [] {
      assert w + Flatten(cs) == w;
      RewriteNoBreaks(w);
    } else {
      RewriteCamel(cs[0][1..], cs[1..]);
      CamelStep(w, cs[0], cs[1..]);
      assert [cs[0]] + cs[1..] == cs;
    }
  }

  lemma CapitalisedIsWord(w: string)
    requires LowerRun(w) || Capitalised(w)
    ensures IsWord(w)
  {
    if Capitalised(w) {
      forall j | 1 <= j < |w| ensures 'a' <= w[j] <= 'z' {
        assert w[j] == w[1..][j - 1];
      }
    }
  }

  /** camelCase: a lower-case word followed by capitalised words splits into exactly those
      words, their capitals kept. */
  lemma CamelCaseTokens(w: string, cs: seq<string>)
    requires LowerRun(w) && AllCapitalised(cs)
    ensures Tokens(w + Flatten(cs)) == [w] + cs
  {
    RewriteCamel(w, cs);
    var ws := [w] + cs;
    AllCapitalisedAreWords(cs);
    CapitalisedIsWord(w);
    assert forall k :: 0 <= k < |ws| ==> IsWord(ws[k]) by {
      forall k | 0 <= k < |ws| ensures IsWord(ws[k]) {
        if k > 0 {
          assert ws[k] == cs[k - 1];
        }
      }
    }
    WordsOfJoined(ws, ' ');
  }

  lemma {:induction false} AllCapitalisedAreWords(cs: seq<string>)
    requires AllCapitalised(cs)
    ensures forall k :: 0 <= k < |cs| ==> IsWord(cs[k])
  {
    if cs != [] {
      CapitalisedIsWord(cs[0]);
      AllCapitalisedAreWords(cs[1..]);
      assert forall k :: 1 <= k < |cs| ==> cs[k] == cs[1..][k - 1];
    }
  }

  // ---------------------------------------------------------------------------
  // the scanner

  /** The scanner's loop invariant: `parts` are the tokens already emitted, `cur` the run being
      built, and together with what the rest of `frag` yields they make up the whole token sequence. */
  predicate ScanInv(frag: string, i: nat, cur: string, parts: seq<string>) {
    i <= |frag| && NoSpace(cur) && Tokens(frag) == parts + Words(cur + Rewrite(frag[i..]))
  }

  /** The rewrite at a position where `([a-zA-Z])([A-Z0-9])` matches. */
  lemma RewriteAtPair(frag: string, i: nat)
    requires i + 1 < |frag| && IsLetter(frag[i]) && IsUpperOrDigit(frag[i + 1])
    ensures Rewrite(frag[i..]) == [frag[i], ' ', frag[i + 1]] + Rewrite(frag[i + 2..])
  {
    assert frag[i..][2..] == frag[i + 2..];
  }

  /** The rewrite at any other position: one character, a separator turned into a space. */
  lemma RewriteAtSingle(frag: string, i: nat)
    requires i < |frag|
    requires !(i + 1 < |frag| && IsLetter(frag[i]) && IsUpperOrDigit(frag[i + 1]))
    ensures Rewrite(frag[i..]) == [if IsDelim(frag[i]) then ' ' else frag[i]] + Rewrite(frag[i + 1..])
  {
    assert frag[i..][1..] == frag[i + 1..];
  }

  /** The split at a whitespace character, with the scanner's bookkeeping: the run in
      progress (if any) is emitted and a new, empty one starts. */
  lemma EmitRun(toks: seq<string>, parts: seq<string>, cur: string, c: char, rest: string)
    requires NoSpace(cur) && IsSpace(c)
    requires toks == parts + Words(cur + ([c] + rest))
    ensures toks == (if cur == [] then parts else parts + [cur]) + Words(rest)
  {
    WordsAfterBreak(cur, c, rest);
  }

  /** Where `frag[i]` is a letter and `frag[i + 1]` an upper-case letter or digit, the current
      run gains `frag[i]` and ends; a new run starts with `frag[i + 1]`. */
  lemma PairStep(frag: string, i: nat, cur: string, parts: seq<string>)
    requires ScanInv(frag, i, cur, parts)
    requires i + 1 < |frag| && IsLetter(frag[i]) && IsUpperOrDigit(frag[i + 1])
    ensures ScanInv(frag, i + 2, [frag[i + 1]], parts + [cur + [frag[i]]])
  {
    RewriteAtPair(frag, i);
    var rest := [frag[i + 1]] + Rewrite(frag[i + 2..]);
    assert cur + Rewrite(frag[i..]) == (cur + [frag[i]]) + ([' '] + rest);
    EmitRun(Tokens(frag), parts, cur + [frag[i]], ' ', rest);
  }

  /** A separator or whitespace at `frag[i]` ends the current run. */
  lemma BreakStep(frag: string, i: nat, cur: string, parts: seq<string>)
    requires ScanInv(frag, i, cur, parts)
    requires i < |frag| && (IsDelim(frag[i]) || IsSpace(frag[i]))
    ensures ScanInv(frag, i + 1, [], if cur == [] then parts else parts + [cur])
  {
    RewriteAtSingle(frag, i);
    var b := if IsDelim(frag[i]) then ' ' else frag[i];
    EmitRun(Tokens(frag), parts, cur, b, Rewrite(frag[i + 1..]));
    assert [] + Rewrite(frag[i + 1..]) == Rewrite(frag[i + 1..]);
  }

  /** Any other character extends the current run. */
  lemma KeepStep(frag: string, i: nat, cur: string, parts: seq<string>)
    requires ScanInv(frag, i, cur, parts)
    requires i < |frag| && !IsDelim(frag[i]) && !IsSpace(frag[i])
    requires !(i + 1 < |frag| && IsLetter(frag[i]) && IsUpperOrDigit(frag[i + 1]))
    ensures ScanInv(frag, i + 1, cur + [frag[i]], parts)
  {
    RewriteAtSingle(frag, i);
    assert cur + Rewrite(frag[i..]) == (cur + [frag[i]]) + Rewrite(frag[i + 1..]);
  }

  /** One left-to-right pass over `frag` that performs the rewrite and the split at once,
      collecting the tokens as `compact_fragment` does before truncating them. */
  method Tokenize(frag: string) returns (parts: seq<string>)
    ensures parts == Tokens(frag)
  {
    parts := [];
    var cur: string := [];
    var i := 0;
    assert frag[0..] == frag;
    assert cur + Rewrite(frag[i..]) == Rewrite(frag);
    while i < |frag|
      invariant ScanInv(frag, i, cur, parts)
      decreases |frag| - i
    {
      var c := frag[i];
      if i + 1 < |frag| && IsLetter(c) && IsUpperOrDigit(frag[i + 1]) {
        // `([a-zA-Z])([A-Z0-9])` matches here: break between the two, consume both
        PairStep(frag, i, cur, parts);
        parts := parts + [cur + [c]];
        cur := [frag[i + 1]];
        i := i + 2;
      } else if IsDelim(c) || IsSpace(c) {
        // `[-_.]` or whitespace: the current token (if any) ends
        BreakStep(frag, i, cur, parts);
        if cur != [] {
          parts := parts + [cur];
        }
        cur := [];
        i := i + 1;
      } else {
        KeepStep(frag, i, cur, parts);
        cur := cur + [c];
        i := i + 1;
      }
    }
    assert cur + Rewrite(frag[i..]) == cur;
    WordsOfRun(cur);
    if cur != [] {
      parts := parts + [cur];
    }
  }
}
