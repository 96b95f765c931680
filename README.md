# Path compactor, modelled in Dafny

This project models the part of the path compactor that abbreviates paths. The program
turns a path such as `/home/example/projects/my-demo-project` into `~/pro/mdp`.
The model has three parts.

- **The `Compactor` configuration.** Five settings: `threshold`, `limit`, `symbol`,
  `absolute` and `separator`. `new` gives the defaults and each `with_*` setter replaces
  one field.
- **`compact_fragment`.** Abbreviates one path component:
  - the root component becomes empty;
  - a component no longer than `threshold` is kept;
  - otherwise the component is tokenised and the tokens are cut to `limit`. The result is
    the first `limit` characters of the component when one token is left and the component
    has at least `limit` characters; otherwise it is the first character (a letter or a
    digit) of each remaining token.
- **`compact_path`.** Replaces a home-directory prefix with `symbol` (unless `absolute` is
  set), compacts every component and joins the results with `separator`.

Modules, in dependency order:

- `Chars` (chars.dfy): the character classes of the tokeniser's regular expression.
- `Joins` (joins.dfy): `join`, with `split` at one character and a counter as its partners.
- `Tokenizer` (tokenizer.dfy): the regex rewrite `(?:([a-zA-Z])([A-Z0-9]))|[-_.]` → `"$1 $2"`
  and `split_whitespace`.
  - They are specified as the functions `Rewrite`, `Words` and `Tokens`.
  - `Tokenize` is a single left-to-right scanning loop, proved equal to `Tokens`.
- `Fragment` (fragment.dfy): `compact_fragment` as the function `CompactFragment`, with
  one lemma per branch. `Compact` is the step-by-step version (collect, truncate in place,
  gather initials), proved equal to it.
- `Paths` (paths.dfy): paths as the component sequences `Path::components` yields.
  - `strip_prefix` is component-wise.
  - `Path::join` replaces the base when the joined path is absolute.
  - The home-aliasing step is built from the two.
- `PathCompactor` (compactor.dfy): the `Compactor` datatype, its builder and `compact_path`.
  The home directory is a parameter.
- `Examples` (examples.dfy): the repository's unit tests, each stated and proved as a
  lemma. A few further corner cases are proved the same way.

The home directory, when the operating system cannot supply one, is the empty path. An
empty path is a prefix of every path, so a relative path gets the symbol in front. An
absolute path, however, is kept unchanged: `Path::new(symbol).join(p)` with an absolute
`p` yields `p` itself. The model follows the code here (`Paths.AliasWithoutHome`) rather
than the simpler reading that the symbol is put in front of every path.

## Model

| member | source | states |
|---|---|---|
| PathCompactor.Compactor.New | src/compactor.rs:14-22 | The defaults: threshold 4, limit 3, symbol `~`, not absolute, separator `/`. |
| PathCompactor.Compactor.WithThreshold | src/compactor.rs:23-26 | Sets the threshold and leaves the other four settings unchanged. |
| PathCompactor.Compactor.WithLimit | src/compactor.rs:27-30 | Sets the limit and leaves the other four settings unchanged. |
| PathCompactor.Compactor.WithSymbol | src/compactor.rs:31-34 | Sets the symbol and leaves the other four settings unchanged. |
| PathCompactor.Compactor.WithAbsolute | src/compactor.rs:35-38 | Sets the absolute flag and leaves the other four settings unchanged. |
| PathCompactor.Compactor.WithSeparator | src/compactor.rs:39-42 | Sets the separator and leaves the other four settings unchanged. |
| PathCompactor.BuilderChain | src/main.rs:24-31 | The command line's chain of setters on `new()` yields exactly the given options, each setter leaving the others' fields alone. |
| PathCompactor.Compactor.CompactFragment | src/compactor.rs:65-67 | The method is the free `compact_fragment` with this configuration's threshold and limit. |
| PathCompactor.Compactor.Components | src/compactor.rs:45-54 | With `absolute` set the components are the path's own. Otherwise every component comes from the path or is the symbol. ASCII input gives ASCII components. |
| PathCompactor.Compactor.CompactAll | src/compactor.rs:58-61 | One result per component, in order, each that component's `compact_fragment`. |
| PathCompactor.Compactor.CompactPath | src/compactor.rs:44-63 | `compact_path` with the home directory passed in: the compacted components joined by the separator. Its properties are stated by `CompactPathStructure` and the path examples (`PathOutsideHome`, `PathUnderHome`, `Delimiter`, `DelimiterWithoutHome`). |
| PathCompactor.CompactedFreeOf | src/compactor.rs:85-106 | A compacted component contains a character only if the component does (the root compacts to nothing), so it cannot bring the separator in. |
| PathCompactor.CompactPathStructure | src/compactor.rs:44-63 | An empty component sequence gives "". Otherwise, when no component contains the one-character separator, splitting the output at the separator gives back every component's compaction, in order, and the output holds exactly one separator fewer than there are components. |
| Joins.JoinWith | src/compactor.rs:62 | `[String]::join(sep)`. `SplitJoin` proves that splitting at a one-character separator absent from the parts gives the parts back, and `SeparatorCount` that the join holds one separator fewer than there are parts. |
| Joins.SplitJoin | src/compactor.rs:62 | Splitting the join of parts free of a one-character separator at that separator gives back exactly the parts. |
| Joins.SeparatorCount | src/compactor.rs:62 | The join of parts free of a one-character separator holds exactly one separator fewer than there are parts. |
| Paths.StripPrefix | src/compactor.rs:50 | Succeeds exactly when the path starts component-wise with the base; the base followed by the remainder is the path. |
| Paths.SymbolComponents | src/compactor.rs:51 | `Path::new(symbol)` has no component exactly when the symbol is empty, and otherwise only the symbol. |
| Paths.JoinPath | src/compactor.rs:51 | An absolute path replaces the base. Otherwise the path follows the base, and a leading `.` of the joined path is dropped when the base is not empty. Every resulting component comes from one of the two. |
| Paths.AliasHome | src/compactor.rs:49-53 | Every aliased component comes from the path or is the symbol. |
| Paths.AliasUnderHome | src/compactor.rs:49-51 | A path under a non-empty home becomes the symbol's components (the symbol, or nothing when it is empty) followed by the components after the home prefix. |
| Paths.AliasOutsideHome | src/compactor.rs:50-52 | A path that does not start with the home components is unchanged. |
| Paths.AliasWithoutHome | src/compactor.rs:71-76 | With an empty home (no home directory found) a relative path gets the symbol prepended, a leading `.` being dropped behind it; an absolute path is unchanged, and so is every path when the symbol is empty. |
| Tokenizer.Rewrite | src/compactor.rs:93 | `RE.replace_all(frag, "$1 $2")` for the pattern built at line 81, its matches leftmost and non-overlapping. Its properties are stated by `RewriteKeepsSignificant`, `RewriteChars`, `RewriteAppend`, `RewriteNoBreaks` and `RewriteCamel`. |
| Tokenizer.Words | src/compactor.rs:94-96 | `split_whitespace`: the maximal whitespace-free runs, in order. Its properties are stated by `WordsOfJoined` and, through `Tokens`, by `TokensContent`. |
| Tokenizer.Tokens | src/compactor.rs:93-96 | Every token is non-empty and free of whitespace. |
| Tokenizer.RewriteKeepsSignificant | src/compactor.rs:81 | With whitespace removed, the rewrite is the fragment minus its `-`, `_`, `.` and whitespace, in order. |
| Tokenizer.RewriteChars | src/compactor.rs:81 | The rewrite adds only spaces and removes every `-`, `_` and `.`. |
| Tokenizer.RewriteAppend | src/compactor.rs:81 | When the second part does not start with an upper-case letter or digit, the two parts are rewritten independently. No match spans the boundary. |
| Tokenizer.RewriteNoBreaks | src/compactor.rs:81 | A fragment with no separator, no whitespace and no letter followed by an upper-case letter or digit is left unchanged. |
| Tokenizer.TokensContent | src/compactor.rs:93-96 | Tokens are non-empty and contain no whitespace and no separators. Every character comes from the fragment, and together the tokens are exactly its significant characters in order. |
| Tokenizer.TokensSplitAt | src/compactor.rs:81 | A separator or whitespace character splits the token sequence: left tokens, then right tokens. |
| Tokenizer.SingleToken | src/compactor.rs:93-96 | A non-empty fragment with no break point is one token, itself. |
| Tokenizer.TokensOfJoinedWords | src/compactor.rs:81 | Unbreakable words joined by `-`, `_`, `.` or whitespace tokenise back into exactly those words. |
| Tokenizer.WordsOfJoined | src/compactor.rs:95 | `split_whitespace` inverts joining whitespace-free words with one whitespace character. |
| Tokenizer.RewriteCamel | src/compactor.rs:81 | A lower-case word followed by capitalised words is rewritten to those words separated by single spaces. |
| Tokenizer.CamelCaseTokens | src/compactor.rs:81 | camelCase tokenises into its lower-case head and each capitalised word, capitals kept. |
| Tokenizer.Tokenize | src/compactor.rs:93-96 | One left-to-right pass, with the regex's non-overlapping matches, yields exactly `Tokens(frag)`. |
| Fragment.CompactFragment | src/compactor.rs:79-107 | The free `compact_fragment`. Its properties are stated branch by branch by `RootCompactsToEmpty`, `ShortFragmentKept`, `SingleTokenPrefix`, `UnbrokenFragmentPrefix`, `ShortSingleTokenInitial` and `InitialsOfLeadingTokens`, bounded by `CompactedBounds`, and matched by the step-by-step `Compact`. |
| Fragment.Truncate | src/compactor.rs:97 | The result is the first `size` tokens, or all of them when there are fewer. |
| Fragment.Initials | src/compactor.rs:103-106 | One character per token, each the token's first character, in order. |
| Fragment.RootCompactsToEmpty | src/compactor.rs:85-87 | A fragment starting with the path separator (and the empty fragment) compacts to "". |
| Fragment.ShortFragmentKept | src/compactor.rs:89-91 | A non-root fragment no longer than the threshold is returned unchanged. |
| Fragment.CompactedBounds | src/compactor.rs:89-106 | Past the threshold the result has at most `size` characters and is empty when `size` is 0. Every result character occurs in the fragment. |
| Fragment.SingleTokenPrefix | src/compactor.rs:99-101 | One token left after truncation and at least `size` characters: the result is the first `size` characters of the original fragment. |
| Fragment.UnbrokenFragmentPrefix | src/compactor.rs:89-101 | A long fragment the tokeniser cannot break compacts to its first `size` characters. |
| Fragment.InitialsOfLeadingTokens | src/compactor.rs:97-106 | In every other over-threshold case the result has one character for each of the first `size` tokens: that token's first character, case kept. |
| Fragment.JoinedWordsCompactToInitials | src/compactor.rs:81-106 | A long kebab-case, snake_case, dotted or spaced name of two or more words compacts to the initials of its first `size` words. |
| Fragment.CamelCaseCompactsToInitials | src/compactor.rs:81-106 | A long camelCase name tokenises into its words and compacts to the initials of the first `size` of them. |
| Fragment.ShortSingleTokenInitial | src/compactor.rs:99-106 | One token in a fragment shorter than `size`: the result is only the token's first character. |
| Fragment.Compact | src/compactor.rs:79-107 | The step-by-step version (tokenise, truncate, slice or gather initials) computes exactly `CompactFragment`. |
| Examples.PathOutsideHome | src/main.rs:50-57 | With the defaults and a home that is not a prefix, `/home/example/projects/my-demo-project` compacts to `/home/exa/pro/mdp`. |
| Examples.PathUnderHome | src/compactor.rs:44-63 | The same path under the home `/home/example` compacts to `~/pro/mdp`. |
| Examples.Kebab | src/main.rs:60-62 | `some-cool-word` compacts to `scw`. |
| Examples.Snake | src/main.rs:65-67 | `some_cool_word` compacts to `scw`. |
| Examples.CamelTokens | src/compactor.rs:81 | `someCoolWord` tokenises into `some`, `Cool`, `Word`. |
| Examples.Camel | src/main.rs:70-72 | `someCoolWord` compacts to `sCW`. |
| Examples.ThresholdSingle | src/main.rs:75-82 | With threshold 10 the alphabet compacts to `abc`. |
| Examples.ThresholdSingleKept | src/main.rs:83-88 | With threshold 100 the alphabet is kept. |
| Examples.ThresholdWords | src/main.rs:92-100 | With threshold 10, `a few words here` compacts to `afw`. |
| Examples.SizeSingle | src/main.rs:103-117 | With limit 1 the alphabet compacts to `a`; with limit 5 to `abcde`. |
| Examples.SizeWordsTwo | src/main.rs:120-128 | With threshold 1 and limit 2, `a few words here` compacts to `af`. |
| Examples.SizeWordsTen | src/main.rs:129-135 | With threshold 1 and limit 10, `a few words here` compacts to `afwh`. |
| Examples.Delimiter | src/main.rs:139-146 | With separator `+` and a non-matching home, `one/two/three` compacts to `one+two+thr`. |
| Examples.DelimiterWithoutHome | src/compactor.rs:71-76 | With no home directory the same relative path compacts to `~+one+two+thr`. |
| Examples.UnderscoreTokens | src/compactor.rs:81 | `_private` is the single token `private`. |
| Examples.LeadingUnderscore | src/compactor.rs:99-101 | `_private` compacts to `_pr`: the slice is taken from the original fragment, so the underscore survives. |
| Examples.ShortSingleWord | src/compactor.rs:99-106 | With limit 10, `abcde` compacts to `a`: one token but fewer than 10 characters. |
| Examples.AcronymTokens | src/compactor.rs:81 | `ABCD` tokenises into `A`, `BC`, `D` (non-overlapping matches). |
| Examples.Acronym | src/compactor.rs:81-106 | With threshold 3, `ABCD` compacts to `ABD`. |
| Examples.AbbreviationTokens | src/compactor.rs:81 | `sCW` tokenises into `s`, `CW`. |
| Examples.NotIdempotent | src/compactor.rs:79-107 | Compaction is not idempotent. With threshold 2, `someCoolWord` gives `sCW`, and compacting that again gives `sC`. |

## Left out

- `main` (src/main.rs:16-42): command-line parsing, `canonicalize`, the current directory and printing are I/O. Only the builder chain it uses is modelled (`PathCompactor.BuilderChain`).
- src/config.rs is command-line definition and help text only; it is not part of this model.
- `get_home` / `dirs::home_dir` is an operating-system lookup. The home directory is a parameter of `CompactPath`, given as its component sequence. The empty sequence stands for the fallback `Path::new("")`.
- `Path::components` is not modelled. Paths are taken as the component sequences it yields:
  - the root is the component `/`;
  - a leading `.` is its own component;
  - repeated separators and interior `.` are already gone.

  `Paths.WellFormed` states what this guarantees where a lemma needs it.
- `OsStr::to_str().unwrap()` cannot fail on the ASCII input modelled here; non-UTF-8 components are out of scope.
- The `regex` crate and `lazy_static` are replaced by the rewrite function `Rewrite` and the scanner `Tokenize`; no regex engine is modelled.
- Non-ASCII text: the source measures and slices bytes and panics when a slice splits a multi-byte character. Every fragment is required to be ASCII, where bytes and characters coincide.
- Whitespace is Rust's `char::is_whitespace` restricted to ASCII (tab, line feed, vertical tab, form feed, carriage return, space).
- `usize` bounds: threshold and limit are unbounded naturals. The command line passes `u16` values, so no wrap-around can occur.
- A symbol containing `/`: `Path::new(symbol)` would then contribute several components. The symbol is modelled as one component (none when empty).
- Only the Unix separator `/` (`MAIN_SEPARATOR`) is modelled. Windows prefixes and `\` are not.
- PathCompactor.CompactPathStructure: the split-back property is stated only for a one-character separator that no component contains. A longer separator, or one occurring inside a component, makes the output ambiguous, and nothing is claimed then.
