/** The free function `compact_fragment` (src/compactor.rs:79-107): abbreviation of one path component. */
module Fragment {
  import opened Chars
  import opened Tokenizer
  import opened Joins

  /** `parts.truncate(size)`: the first `size` tokens, or all of them when there are fewer. */
  function Truncate(parts: seq<string>, size: nat): (r: seq<string>)
    ensures |r| <= size && |r| <= |parts|
    ensures |r| == size || |r| == |parts|
    ensures r == parts[..|r|]
  {
    if |parts| <= size then parts else parts[..size]
  }

  /** The first character of every token, in order (`.map(|p| &p[..1]).join("")`). */
  function Initials(parts: seq<string>): (r: string)
    requires forall k :: 0 <= k < |parts| ==> parts[k] != []
    ensures |r| == |parts|
    ensures forall k :: 0 <= k < |parts| ==> r[k] == parts[k][0]
  {
    seq(|parts|, k requires 0 <= k < |parts| => parts[k][0])
  }

  /** Does the fragment start with the path separator (the root component)? */
  predicate IsRootFragment(frag: string) {
    |frag| > 0 && frag[0] == PathSeparator
  }

  /** `compact_fragment(frag, threshold, size)`. Lengths are byte lengths in the source;
      on ASCII text they are character counts. */
  function CompactFragment(frag: string, threshold: nat, size: nat): string
    requires IsAscii(frag)
  {
    if IsRootFragment(frag) then ""
    else if |frag| <= threshold then frag
    else
      var parts := Truncate(Tokens(frag), size);
      TokensContent(frag);
      if |parts| == 1 && |frag| >= size then frag[..size]
      else Initials(parts)
  }

  // ---------------------------------------------------------------------------
  // properties

  /** The root component compacts to the empty string, so a rejoined absolute path keeps
      its leading separator; the empty fragment stays empty. */
  lemma RootCompactsToEmpty(frag: string, threshold: nat, size: nat)
    requires IsAscii(frag)
    requires frag == [] || frag[0] == PathSeparator
    ensures CompactFragment(frag, threshold, size) == ""
  {
  }

  /** A fragment no longer than the threshold is kept as it is. */
  lemma ShortFragmentKept(frag: string, threshold: nat, size: nat)
    requires IsAscii(frag) && !IsRootFragment(frag)
    requires |frag| <= threshold
    ensures CompactFragment(frag, threshold, size) == frag
  {
  }

  /** An over-threshold fragment compacts to at most `size` characters, to none when
      `size` is 0, and never to a character the fragment does not contain. */
  lemma CompactedBounds(frag: string, threshold: nat, size: nat)
    requires IsAscii(frag)
    ensures var r := CompactFragment(frag, threshold, size);
      (|frag| > threshold ==> |r| <= size && (size == 0 ==> r == "")) &&
      (forall c :: c in r ==> c in frag)
  {
    var r := CompactFragment(frag, threshold, size);
    if !IsRootFragment(frag) && |frag| > threshold {
      var toks := Tokens(frag);
      var parts := Truncate(toks, size);
      TokensContent(frag);
      if !(|parts| == 1 && |frag| >= size) {
        forall c | c in r ensures c in frag {
          var k :| 0 <= k < |r| && r[k] == c;
          assert parts[k] == toks[k] && toks[k] in toks;
          assert parts[k][0] in parts[k];
        }
      }
    }
  }

  /** When tokenisation leaves exactly one token and the fragment has at least `size`
      characters, the result is the first `size` characters of the original fragment
      (not of the token), so a leading separator character survives. */
  lemma SingleTokenPrefix(frag: string, threshold: nat, size: nat)
    requires IsAscii(frag) && !IsRootFragment(frag) && |frag| > threshold
    requires |Truncate(Tokens(frag), size)| == 1 && |frag| >= size
    ensures CompactFragment(frag, threshold, size) == frag[..size]
  {
  }

  /** A long fragment the tokeniser cannot break (an all-lower-case word, say) compacts
      to its first `size` characters. */
  lemma UnbrokenFragmentPrefix(frag: string, threshold: nat, size: nat)
    requires IsAscii(frag) && !IsRootFragment(frag) && |frag| > threshold
    requires NoBreaks(frag) && |frag| >= size
    ensures CompactFragment(frag, threshold, size) == frag[..size]
  {
    SingleToken(frag);
    if size == 0 {
      assert Truncate(Tokens(frag), size) == [];
    }
  }

  /** In every other over-threshold case the result is the first character of each of the
      first `size` tokens, in order and with their case kept. */
  lemma InitialsOfLeadingTokens(frag: string, threshold: nat, size: nat)
    requires IsAscii(frag) && !IsRootFragment(frag) && |frag| > threshold
    requires !(|Truncate(Tokens(frag), size)| == 1 && |frag| >= size)
    ensures var r := CompactFragment(frag, threshold, size);
      var toks := Tokens(frag);
      |r| == (if |toks| <= size then |toks| else size) &&
      forall k :: 0 <= k < |r| ==> r[k] == toks[k][0]
  {
    TokensContent(frag);
  }

  /** A long name made of two or more unbreakable words joined by `-`, `_`, `.` or
      whitespace compacts to the initials of its first `size` words. */
  lemma JoinedWordsCompactToInitials(ws: seq<string>, d: char, threshold: nat, size: nat)
    requires IsDelim(d) || IsSpace(d)
    requires |ws| >= 2 && forall k :: 0 <= k < |ws| ==> ws[k] != [] && NoBreaks(ws[k])
    requires ws[0][0] != PathSeparator
    requires IsAscii(JoinWith(ws, [d])) && |JoinWith(ws, [d])| > threshold
    ensures CompactFragment(JoinWith(ws, [d]), threshold, size) == Initials(Truncate(ws, size))
  {
    var frag := JoinWith(ws, [d]);
    TokensOfJoinedWords(ws, d);
    assert frag == ws[0] + [d] + JoinWith(ws[1..], [d]);
    assert frag[0] == ws[0][0];
    if size == 1 {
      assert frag[..1] == [ws[0][0]];
    }
  }

  /** A long camelCase name compacts to the initials of its first `size` words, the
      capitals kept. */
  lemma CamelCaseCompactsToInitials(w: string, cs: seq<string>, threshold: nat, size: nat)
    requires LowerRun(w) && AllCapitalised(cs) && cs != []
    requires IsAscii(w + Flatten(cs)) && |w + Flatten(cs)| > threshold
    ensures Tokens(w + Flatten(cs)) == [w] + cs
    ensures CompactFragment(w + Flatten(cs), threshold, size)
         == Initials(Truncate(Tokens(w + Flatten(cs)), size))
  {
    var frag := w + Flatten(cs);
    CamelCaseTokens(w, cs);
    assert frag[0] == w[0];
    if size == 1 {
      assert frag[..1] == [w[0]];
    }
  }

  /** A single token shorter than `size` falls through to the initials branch: the result
      is its first character only. */
  lemma ShortSingleTokenInitial(frag: string, threshold: nat, size: nat)
    requires IsAscii(frag) && !IsRootFragment(frag) && |frag| > threshold
    requires |Tokens(frag)| == 1 && |frag| < size
    ensures CompactFragment(frag, threshold, size) == [Tokens(frag)[0][0]]
  {
    TokensContent(frag);
  }

  // ---------------------------------------------------------------------------
  // the imperative version

  /** `compact_fragment` step by step: collect the tokens, truncate them in place, then
      either slice the fragment or gather the initials. */
  method Compact(frag: string, threshold: nat, size: nat) returns (r: string)
    requires IsAscii(frag)
    ensures r == CompactFragment(frag, threshold, size)
  {
    if IsRootFragment(frag) {
      return "";
    }
    if |frag| <= threshold {
      return frag;
    }
    var parts := Tokenize(frag);
    TokensContent(frag);
    if |parts| > size {
      parts := parts[..size];
    }
    if |parts| == 1 && |frag| >= size {
      return frag[..size];
    }
    r := "";
    var k := 0;
    while k < |parts|
      invariant 0 <= k <= |parts|
      invariant |r| == k
      invariant forall j :: 0 <= j < k ==> r[j] == parts[j][0]
    {
      r := r + [parts[k][0]];
      k := k + 1;
    }
  }
}
