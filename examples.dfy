/** The unit tests of src/main.rs:49-146, and a few more cases of the same kind, proved
    about the model. Each example takes its configuration and its input as parameters
    that the preconditions pin down to the test's values. */
module Examples {
  import opened Chars
  import opened Joins
  import opened Tokenizer
  import opened Fragment
  import opened Paths
  import opened PathCompactor

  // ---------------------------------------------------------------------------
  // building blocks

  /** Lower-case words are ASCII, have no break points and do not start at the root. */
  lemma LowerCaseUnbroken(s: string)
    requires LowerRun(s)
    ensures IsAscii(s) && NoBreaks(s) && !IsRootFragment(s)
  {
  }

  /** Joining ASCII strings with an ASCII separator gives ASCII. */
  lemma {:induction false} JoinAscii(ws: seq<string>, sep: string)
    requires IsAscii(sep) && forall k :: 0 <= k < |ws| ==> IsAscii(ws[k])
    ensures IsAscii(JoinWith(ws, sep))
  {
    if |ws| > 1 {
      JoinAscii(ws[1..], sep);
      var rest := JoinWith(ws[1..], sep);
      var s := ws[0] + sep + rest;
      forall i | 0 <= i < |s| ensures s[i] < 128 as char {
        if i < |ws[0]| {
          assert s[i] == ws[0][i];
        } else if i < |ws[0]| + |sep| {
          assert s[i] == sep[i - |ws[0]|];
        } else {
          assert s[i] == rest[i - |ws[0]| - |sep|];
        }
      }
    }
  }

  /** Lower-case words joined by `-`, `_` or a space, over the threshold, are abbreviated
      to the initials of the first `limit` words. */
  lemma JoinedLowerWords(c: Compactor, ws: seq<string>, d: char, frag: string)
    requires d == '-' || d == '_' || d == ' '
    requires |ws| >= 2 && forall k :: 0 <= k < |ws| ==> ws[k] != [] && LowerRun(ws[k])
    requires frag == JoinWith(ws, [d]) && |frag| > c.threshold
    ensures IsAscii(frag) && c.CompactFragment(frag) == Initials(Truncate(ws, c.limit))
  {
    forall k | 0 <= k < |ws| ensures IsAscii(ws[k]) && NoBreaks(ws[k]) {
      LowerCaseUnbroken(ws[k]);
    }
    JoinAscii(ws, [d]);
    JoinedWordsCompactToInitials(ws, d, c.threshold, c.limit);
  }

  /** Three lower-case words joined by `-`, `_` or a space. */
  lemma ThreeLowerWords(c: Compactor, a: string, b: string, e: string, d: char, frag: string)
    requires d == '-' || d == '_' || d == ' '
    requires a != [] && b != [] && e != [] && LowerRun(a) && LowerRun(b) && LowerRun(e)
    requires frag == a + [d] + b + [d] + e && |frag| > c.threshold
    ensures IsAscii(frag) && c.CompactFragment(frag) == Initials(Truncate([a, b, e], c.limit))
  {
    JoinThree(a, b, e, [d]);
    JoinedLowerWords(c, [a, b, e], d, frag);
  }

  /** Four lower-case words joined by `-`, `_` or a space. */
  lemma FourLowerWords(c: Compactor, a: string, b: string, e: string, f: string, d: char, frag: string)
    requires d == '-' || d == '_' || d == ' '
    requires a != [] && b != [] && e != [] && f != []
    requires LowerRun(a) && LowerRun(b) && LowerRun(e) && LowerRun(f)
    requires frag == a + [d] + b + [d] + e + [d] + f && |frag| > c.threshold
    ensures IsAscii(frag) && c.CompactFragment(frag) == Initials(Truncate([a, b, e, f], c.limit))
  {
    JoinFour(a, b, e, f, [d]);
    JoinedLowerWords(c, [a, b, e, f], d, frag);
  }

  /** A lower-case word over the threshold, at least `limit` long, is cut to `limit`
      characters. */
  lemma LowerWordCut(c: Compactor, frag: string)
    requires LowerRun(frag) && |frag| > c.threshold && |frag| >= c.limit
    ensures IsAscii(frag) && c.CompactFragment(frag) == frag[..c.limit]
  {
    LowerCaseUnbroken(frag);
    UnbrokenFragmentPrefix(frag, c.threshold, c.limit);
  }

  /** Joining three to five strings, written out. */
  lemma JoinThree(a: string, b: string, c: string, sep: string)
    ensures JoinWith([a, b, c], sep) == a + sep + b + sep + c
  {
    assert [a, b, c][1..] == [b, c] && [b, c][1..] == [c];
    assert JoinWith([b, c], sep) == b + sep + c;
  }

  lemma JoinFour(a: string, b: string, c: string, d: string, sep: string)
    ensures JoinWith([a, b, c, d], sep) == a + sep + b + sep + c + sep + d
  {
    assert [a, b, c, d][1..] == [b, c, d];
    JoinThree(b, c, d, sep);
  }

  lemma JoinFive(a: string, b: string, c: string, d: string, e: string, sep: string)
    ensures JoinWith([a, b, c, d, e], sep) == a + sep + b + sep + c + sep + d + sep + e
  {
    assert [a, b, c, d, e][1..] == [b, c, d, e];
    JoinFour(b, c, d, e, sep);
  }

  /** The initials of four words, cut to three and kept whole. */
  lemma InitialsFour(ws: seq<string>)
    requires |ws| == 4 && ws[0] != [] && ws[1] != [] && ws[2] != [] && ws[3] != []
    ensures Initials(Truncate(ws, 3)) == [ws[0][0], ws[1][0], ws[2][0]]
    ensures Initials(Truncate(ws, 10)) == [ws[0][0], ws[1][0], ws[2][0], ws[3][0]]
    ensures Initials(Truncate(ws, 2)) == [ws[0][0], ws[1][0]]
  {
    assert Truncate(ws, 10) == ws;
  }

  /** The initials of three words. */
  lemma InitialsThree(ws: seq<string>)
    requires |ws| == 3 && ws[0] != [] && ws[1] != [] && ws[2] != []
    ensures Initials(Truncate(ws, 3)) == [ws[0][0], ws[1][0], ws[2][0]]
  {
    assert Truncate(ws, 3) == ws;
  }

  // ---------------------------------------------------------------------------
  // fragments: `test_threshold_single`, `test_size_single`

  const Alphabet: string := "abcdefghijklmnopqrstuvwxyz"

  lemma AlphabetLower(s: string)
    requires s == Alphabet
    ensures LowerRun(s)
  {
    var p1, p2 := "abcdefghijklm", "nopqrstuvwxyz";
    assert LowerRun(p1) && LowerRun(p2);
    assert s == p1 + p2;
    forall i | 0 <= i < |s| ensures 'a' <= s[i] <= 'z' {
      if i < |p1| {
        assert s[i] == p1[i];
      } else {
        assert s[i] == p2[i - |p1|];
      }
    }
  }

  /** `test_threshold_single`: an unbreakable name over the threshold is cut to `limit`
      characters. */
  lemma ThresholdSingle(c: Compactor, frag: string)
    requires c == Compactor.New().WithThreshold(10) && frag == Alphabet
    ensures IsAscii(frag) && c.CompactFragment(frag) == "abc"
  {
    AlphabetLower(frag);
    LowerWordCut(c, frag);
  }

  /** `test_threshold_single`: a name under the threshold is kept. */
  lemma ThresholdSingleKept(c: Compactor, frag: string)
    requires c == Compactor.New().WithThreshold(100) && frag == Alphabet
    ensures IsAscii(frag) && c.CompactFragment(frag) == frag
  {
    AlphabetLower(frag);
    LowerCaseUnbroken(frag);
    ShortFragmentKept(frag, 100, 3);
  }

  /** `test_size_single`: the prefix is as long as the limit. */
  lemma SizeSingle(c1: Compactor, c5: Compactor, frag: string)
    requires c1 == Compactor.New().WithLimit(1) && c5 == Compactor.New().WithLimit(5)
    requires frag == Alphabet
    ensures IsAscii(frag) && c1.CompactFragment(frag) == "a" && c5.CompactFragment(frag) == "abcde"
  {
    AlphabetLower(frag);
    LowerWordCut(c1, frag);
    LowerWordCut(c5, frag);
  }

  // ---------------------------------------------------------------------------
  // fragments: `test_frag_kebab`, `test_frag_snake`, `test_frag_camel`

  /** `test_frag_kebab`. */
  lemma Kebab(c: Compactor, frag: string)
    requires c == Compactor.New() && frag == "some-cool-word"
    ensures IsAscii(frag) && c.CompactFragment(frag) == "scw"
  {
    assert LowerRun("some") && LowerRun("cool") && LowerRun("word");
    ThreeLowerWords(c, "some", "cool", "word", '-', frag);
    InitialsThree(["some", "cool", "word"]);
  }

  /** `test_frag_snake`. */
  lemma Snake(c: Compactor, frag: string)
    requires c == Compactor.New() && frag == "some_cool_word"
    ensures IsAscii(frag) && c.CompactFragment(frag) == "scw"
  {
    assert LowerRun("some") && LowerRun("cool") && LowerRun("word");
    ThreeLowerWords(c, "some", "cool", "word", '_', frag);
    InitialsThree(["some", "cool", "word"]);
  }

  /** The camel-case name splits before each capital. */
  lemma CamelTokens(frag: string)
    requires frag == "someCoolWord"
    ensures IsAscii(frag) && Tokens(frag) == ["some", "Cool", "Word"]
  {
    var cs := ["Cool", "Word"];
    assert LowerRun("some") && LowerRun("ool") && LowerRun("ord");
    assert "Cool"[1..] == "ool" && "Word"[1..] == "ord";
    assert cs[1..] == ["Word"] && cs[1..][1..] == [];
    assert AllCapitalised(cs);
    assert Flatten(cs) == "CoolWord";
    assert "some" + Flatten(cs) == frag;
    CamelCaseCompactsToInitials("some", cs, 0, 3);
  }

  /** `test_frag_camel`: the capitals of the later words are kept. */
  lemma Camel(c: Compactor, frag: string)
    requires c == Compactor.New() && frag == "someCoolWord"
    ensures IsAscii(frag) && c.CompactFragment(frag) == "sCW"
  {
    CamelTokens(frag);
    InitialsThree(Tokens(frag));
  }

  // ---------------------------------------------------------------------------
  // fragments: `test_threshold_words`, `test_size_words`

  const FewWords: string := "a few words here"

  lemma FewWordsLower()
    ensures LowerRun("a") && LowerRun("few") && LowerRun("words") && LowerRun("here")
  {
  }

  /** `test_threshold_words`. */
  lemma ThresholdWords(c: Compactor, frag: string)
    requires c == Compactor.New().WithThreshold(10) && frag == FewWords
    ensures IsAscii(frag) && c.CompactFragment(frag) == "afw"
  {
    FewWordsLower();
    FourLowerWords(c, "a", "few", "words", "here", ' ', frag);
    InitialsFour(["a", "few", "words", "here"]);
  }

  /** `test_size_words`, a limit of two words. */
  lemma SizeWordsTwo(c: Compactor, frag: string)
    requires c == Compactor.New().WithThreshold(1).WithLimit(2) && frag == FewWords
    ensures IsAscii(frag) && c.CompactFragment(frag) == "af"
  {
    FewWordsLower();
    FourLowerWords(c, "a", "few", "words", "here", ' ', frag);
    InitialsFour(["a", "few", "words", "here"]);
  }

  /** `test_size_words`, a limit above the number of words. */
  lemma SizeWordsTen(c: Compactor, frag: string)
    requires c == Compactor.New().WithThreshold(1).WithLimit(10) && frag == FewWords
    ensures IsAscii(frag) && c.CompactFragment(frag) == "afwh"
  {
    FewWordsLower();
    FourLowerWords(c, "a", "few", "words", "here", ' ', frag);
    InitialsFour(["a", "few", "words", "here"]);
  }

  // ---------------------------------------------------------------------------
  // fragments: corner cases of the abbreviation

  /** A leading separator is dropped by the tokeniser. */
  lemma UnderscoreTokens(frag: string, w: string)
    requires frag == "_private" && w == "private"
    ensures IsAscii(frag) && Tokens(frag) == [w]
  {
    assert LowerRun(w);
    LowerCaseUnbroken(w);
    assert [] + ['_'] + w == frag;
    TokensSplitAt([], '_', w);
    assert Rewrite([]) == [];
    SingleToken(w);
  }

  /** A leading separator is no token, but the single-token prefix is taken from the
      fragment itself, so it keeps the separator. */
  lemma LeadingUnderscore(c: Compactor, frag: string)
    requires c == Compactor.New() && frag == "_private"
    ensures IsAscii(frag) && c.CompactFragment(frag) == "_pr"
  {
    UnderscoreTokens(frag, "private");
    SingleTokenPrefix(frag, 4, 3);
    assert frag[..3] == "_pr";
  }

  /** A single token shorter than the limit is abbreviated to its initial, not kept. */
  lemma ShortSingleWord(c: Compactor, frag: string)
    requires c == Compactor.New().WithLimit(10) && frag == "abcde"
    ensures IsAscii(frag) && c.CompactFragment(frag) == "a"
  {
    assert LowerRun(frag);
    LowerCaseUnbroken(frag);
    SingleToken(frag);
    ShortSingleTokenInitial(frag, 4, 10);
  }

  /** Upper-case runs are split two letters at a time, from the left. */
  lemma AcronymTokens(frag: string)
    requires frag == "ABCD"
    ensures IsAscii(frag) && Tokens(frag) == ["A", "BC", "D"]
  {
    assert frag[2..] == "CD" && "CD"[2..] == [];
    assert Rewrite(frag) == "A B" + "C D";
    JoinThree("A", "BC", "D", " ");
    assert "A B" + "C D" == JoinWith(["A", "BC", "D"], " ");
    WordsOfJoined(["A", "BC", "D"], ' ');
  }

  /** The upper-case name abbreviates to the initials of its letter pairs. */
  lemma Acronym(c: Compactor, frag: string)
    requires c == Compactor.New().WithThreshold(3) && frag == "ABCD"
    ensures IsAscii(frag) && c.CompactFragment(frag) == "ABD"
  {
    AcronymTokens(frag);
    InitialsThree(Tokens(frag));
  }

  /** The abbreviation of the camel-case name still holds a letter before a capital. */
  lemma AbbreviationTokens(frag: string)
    requires frag == "sCW"
    ensures IsAscii(frag) && Tokens(frag) == ["s", "CW"]
  {
    assert frag[2..] == "W" && Rewrite("W") == "W";
    assert Rewrite(frag) == "s CW";
    assert JoinWith(["s", "CW"], " ") == "s CW";
    WordsOfJoined(["s", "CW"], ' ');
  }

  /** Compaction is not idempotent: a compacted camel-case name can compact further. */
  lemma NotIdempotent(c: Compactor, frag: string, once: string)
    requires c == Compactor.New().WithThreshold(2)
    requires frag == "someCoolWord" && once == "sCW"
    ensures IsAscii(frag) && c.CompactFragment(frag) == once
    ensures c.CompactFragment(once) == "sC"
  {
    CamelTokens(frag);
    AbbreviationTokens(once);
    InitialsThree(Tokens(frag));
    assert Truncate(Tokens(once), 3) == Tokens(once);
  }

  // ---------------------------------------------------------------------------
  // paths: `test_path`, `test_delimiter`

  /** Compacting a component sequence in two parts. */
  lemma CompactAllAppend(c: Compactor, a: seq<string>, b: seq<string>)
    requires forall k :: 0 <= k < |a| ==> IsAscii(a[k])
    requires forall k :: 0 <= k < |b| ==> IsAscii(b[k])
    ensures forall k :: 0 <= k < |a + b| ==> IsAscii((a + b)[k])
    ensures c.CompactAll(a + b) == c.CompactAll(a) + c.CompactAll(b)
  {
  }

  /** Components compacted one by one. */
  lemma CompactAllOne(c: Compactor, x: string, rx: string)
    requires IsAscii(x) && c.CompactFragment(x) == rx
    ensures forall k :: 0 <= k < |[x]| ==> IsAscii([x][k])
    ensures c.CompactAll([x]) == [rx]
  {
  }

  lemma CompactAllTwo(c: Compactor, x: string, y: string, rx: string, ry: string)
    requires IsAscii(x) && c.CompactFragment(x) == rx
    requires IsAscii(y) && c.CompactFragment(y) == ry
    ensures forall k :: 0 <= k < |[x, y]| ==> IsAscii([x, y][k])
    ensures c.CompactAll([x, y]) == [rx, ry]
  {
  }

  lemma CompactAllThree(c: Compactor, x: string, y: string, z: string, rx: string, ry: string, rz: string)
    requires IsAscii(x) && c.CompactFragment(x) == rx
    requires IsAscii(y) && c.CompactFragment(y) == ry
    requires IsAscii(z) && c.CompactFragment(z) == rz
    ensures forall k :: 0 <= k < |[x, y, z]| ==> IsAscii([x, y, z][k])
    ensures c.CompactAll([x, y, z]) == [rx, ry, rz]
  {
  }

  /** Short lower-case components are kept by the default threshold. */
  lemma ShortKept(c: Compactor, frag: string)
    requires c.threshold == 4 && LowerRun(frag) && |frag| <= 4
    ensures IsAscii(frag) && c.CompactFragment(frag) == frag
  {
    LowerCaseUnbroken(frag);
    ShortFragmentKept(frag, c.threshold, c.limit);
  }

  /** The symbol is kept by the default threshold. */
  lemma SymbolKept(c: Compactor, frag: string)
    requires c.threshold == 4 && frag == "~"
    ensures IsAscii(frag) && c.CompactFragment(frag) == frag
  {
    ShortFragmentKept(frag, c.threshold, c.limit);
  }

  /** The last component of the `test_path` path. */
  lemma DemoProject(c: Compactor, frag: string)
    requires c.threshold == 4 && c.limit == 3
    requires frag == "my-demo-project"
    ensures IsAscii(frag) && c.CompactFragment(frag) == "mdp"
  {
    assert LowerRun("my") && LowerRun("demo") && LowerRun("project");
    ThreeLowerWords(c, "my", "demo", "project", '-', frag);
    InitialsThree(["my", "demo", "project"]);
  }

  const DemoPath: seq<string> := ["/", "home", "example", "projects", "my-demo-project"]

  /** The first three components of the `test_path` path: the root, `home` and the user's
      directory. */
  lemma DemoHeadCompacted(c: Compactor, comps: seq<string>)
    requires c.threshold == 4 && c.limit == 3
    requires comps == ["/", "home", "example"]
    ensures forall k :: 0 <= k < |comps| ==> IsAscii(comps[k])
    ensures c.CompactAll(comps) == ["", "home", "exa"]
  {
    RootCompactsToEmpty("/", 4, 3);
    assert LowerRun("home") && LowerRun("example");
    ShortKept(c, "home");
    LowerWordCut(c, "example");
    CompactAllThree(c, "/", "home", "example", "", "home", "exa");
  }

  /** The last two components of the `test_path` path. */
  lemma DemoTailCompacted(c: Compactor, comps: seq<string>)
    requires c.threshold == 4 && c.limit == 3
    requires comps == ["projects", "my-demo-project"]
    ensures forall k :: 0 <= k < |comps| ==> IsAscii(comps[k])
    ensures c.CompactAll(comps) == ["pro", "mdp"]
  {
    assert LowerRun("projects");
    LowerWordCut(c, "projects");
    DemoProject(c, "my-demo-project");
    CompactAllTwo(c, "projects", "my-demo-project", "pro", "mdp");
  }

  /** The whole `test_path` path, compacted with the default threshold and limit. */
  lemma DemoCompacted(c: Compactor, comps: seq<string>)
    requires c.threshold == 4 && c.limit == 3
    requires comps == DemoPath
    ensures forall k :: 0 <= k < |comps| ==> IsAscii(comps[k])
    ensures c.CompactAll(comps) == ["", "home", "exa", "pro", "mdp"]
  {
    var head, tail := ["/", "home", "example"], ["projects", "my-demo-project"];
    assert comps == head + tail;
    DemoHeadCompacted(c, head);
    DemoTailCompacted(c, tail);
    CompactAllAppend(c, head, tail);
  }

  lemma DemoJoined(rs: seq<string>)
    requires rs == ["", "home", "exa", "pro", "mdp"]
    ensures JoinWith(rs, "/") == "/home/exa/pro/mdp"
  {
    JoinFive(rs[0], rs[1], rs[2], rs[3], rs[4], "/");
  }

  /** `test_path`, on a host whose home directory is not a prefix of the path: every
      component is compacted, the root to nothing, so the output still starts with the
      separator. */
  lemma PathOutsideHome(c: Compactor, home: seq<string>, path: seq<string>)
    requires c == Compactor.New()
    requires home == ["/", "home", "someone"] && path == DemoPath
    ensures AsciiInput(c, path) && c.CompactPath(home, path) == "/home/exa/pro/mdp"
  {
    assert path[2] != home[2];
    AliasOutsideHome(path, home, "~");
    DemoCompacted(c, path);
    DemoJoined(c.CompactAll(path));
  }

  /** Under `/home/example` the `test_path` path is aliased to the symbol and the two
      components after the home directory. */
  lemma DemoAliased(c: Compactor, home: seq<string>, path: seq<string>)
    requires c == Compactor.New()
    requires home == ["/", "home", "example"] && path == DemoPath
    ensures c.Components(home, path) == ["~"] + ["projects", "my-demo-project"]
  {
    assert path[..3] == home;
    AliasUnderHome(path, home, "~");
    assert path[3..] == ["projects", "my-demo-project"];
  }

  /** The aliased components of the `test_path` path, compacted: the symbol is kept. */
  lemma AliasedCompacted(c: Compactor, home: seq<string>, path: seq<string>)
    requires c == Compactor.New()
    requires home == ["/", "home", "example"] && path == DemoPath
    ensures var comps := c.Components(home, path);
      (forall k :: 0 <= k < |comps| ==> IsAscii(comps[k])) && c.CompactAll(comps) == ["~", "pro", "mdp"]
  {
    DemoAliased(c, home, path);
    var sym, tail := ["~"], ["projects", "my-demo-project"];
    SymbolKept(c, "~");
    CompactAllOne(c, "~", "~");
    DemoTailCompacted(c, tail);
    CompactAllAppend(c, sym, tail);
  }

  /** The same path on a host whose home directory is `/home/example`: the home
      components become the symbol. */
  lemma PathUnderHome(c: Compactor, home: seq<string>, path: seq<string>)
    requires c == Compactor.New()
    requires home == ["/", "home", "example"] && path == DemoPath
    ensures AsciiInput(c, path) && c.CompactPath(home, path) == "~/pro/mdp"
  {
    DemoCompacted(c, path);
    AliasedCompacted(c, home, path);
    JoinThree("~", "pro", "mdp", "/");
  }

  /** The components of the `test_delimiter` path, compacted with the default threshold
      and limit. */
  lemma NumbersCompacted(c: Compactor, comps: seq<string>)
    requires c.threshold == 4 && c.limit == 3
    requires comps == ["one", "two", "three"]
    ensures forall k :: 0 <= k < |comps| ==> IsAscii(comps[k])
    ensures c.CompactAll(comps) == ["one", "two", "thr"]
  {
    assert LowerRun("one") && LowerRun("two") && LowerRun("three");
    ShortKept(c, "one");
    ShortKept(c, "two");
    LowerWordCut(c, "three");
    CompactAllThree(c, "one", "two", "three", "one", "two", "thr");
  }

  /** `test_delimiter`: a relative path outside the home directory, joined with `+`. */
  lemma Delimiter(c: Compactor, home: seq<string>, path: seq<string>)
    requires c == Compactor.New().WithSeparator("+")
    requires home == ["/", "home", "example"] && path == ["one", "two", "three"]
    ensures AsciiInput(c, path) && c.CompactPath(home, path) == "one+two+thr"
  {
    assert path[0] != home[0];
    AliasOutsideHome(path, home, "~");
    NumbersCompacted(c, path);
    JoinThree("one", "two", "thr", "+");
  }

  /** `test_delimiter` on a host without a home directory: the empty home is a prefix of
      every path, so the relative path gets the symbol in front. */
  lemma DelimiterWithoutHome(c: Compactor, path: seq<string>)
    requires c == Compactor.New().WithSeparator("+")
    requires path == ["one", "two", "three"]
    ensures AsciiInput(c, path) && c.CompactPath([], path) == "~+one+two+thr"
  {
    AliasWithoutHome(path, "~");
    var sym := ["~"];
    SymbolKept(c, "~");
    CompactAllOne(c, "~", "~");
    NumbersCompacted(c, path);
    CompactAllAppend(c, sym, path);
    JoinFour("~", "one", "two", "thr", "+");
  }
}
