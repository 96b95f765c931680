/** The `Compactor` configuration and `compact_path` (src/compactor.rs:6-68). */
module PathCompactor {
  import opened Chars
  import opened Fragment
  import opened Paths
  import opened Joins

  /** The five settings of a compaction. The setters take the value and hand back an
      updated copy, as the source's `with_*` methods do with their owned `self`. */
  datatype Compactor = Compactor(
    threshold: nat,    // fragments no longer than this are kept
    limit: nat,        // the most tokens (or characters) an abbreviation keeps
    symbol: string,    // stands for the home directory
    absolute: bool,    // true turns home aliasing off
    separator: string  // put between the compacted components
  )
  {
    /** `Compactor::new()`: the defaults, with the Unix path separator. */
    static function New(): (c: Compactor)
      ensures c.threshold == 4 && c.limit == 3 && c.symbol == "~"
      ensures !c.absolute && c.separator == [PathSeparator]
    {
      Compactor(4, 3, "~", false, "/")
    }

    function WithThreshold(threshold: nat): (c: Compactor)
      ensures c.threshold == threshold
      ensures c.limit == limit && c.symbol == symbol && c.absolute == absolute && c.separator == separator
    {
      this.(threshold := threshold)
    }

    function WithLimit(limit: nat): (c: Compactor)
      ensures c.limit == limit
      ensures c.threshold == threshold && c.symbol == symbol && c.absolute == absolute && c.separator == separator
    {
      this.(limit := limit)
    }

    function WithSymbol(symbol: string): (c: Compactor)
      ensures c.symbol == symbol
      ensures c.threshold == threshold && c.limit == limit && c.absolute == absolute && c.separator == separator
    {
      this.(symbol := symbol)
    }

    function WithAbsolute(absolute: bool): (c: Compactor)
      ensures c.absolute == absolute
      ensures c.threshold == threshold && c.limit == limit && c.symbol == symbol && c.separator == separator
    {
      this.(absolute := absolute)
    }

    function WithSeparator(separator: string): (c: Compactor)
      ensures c.separator == separator
      ensures c.threshold == threshold && c.limit == limit && c.symbol == symbol && c.absolute == absolute
    {
      this.(separator := separator)
    }

    /** The method `compact_fragment`: the free function with this configuration's
        threshold and limit. */
    function CompactFragment(frag: string): (r: string)
      requires IsAscii(frag)
      ensures r == Fragment.CompactFragment(frag, threshold, limit)
    {
      Fragment.CompactFragment(frag, threshold, limit)
    }

    /** The components `compact_path` compacts: the path itself, or the path with its home
        prefix aliased unless `absolute` is set. */
    function Components(home: seq<string>, path: seq<string>): (comps: seq<string>)
      ensures absolute ==> comps == path
      ensures forall x :: x in comps ==> x in path || x == symbol
      ensures IsAscii(symbol) && (forall k :: 0 <= k < |path| ==> IsAscii(path[k])) ==>
                forall k :: 0 <= k < |comps| ==> IsAscii(comps[k])
    {
      var comps := if absolute then path else AliasHome(path, home, symbol);
      assert forall k :: 0 <= k < |comps| ==> comps[k] in comps;
      assert forall k :: 0 <= k < |path| ==> path[k] in path;
      comps
    }

    /** Every component compacted on its own, in order. */
    function CompactAll(comps: seq<string>): (rs: seq<string>)
      requires forall k :: 0 <= k < |comps| ==> IsAscii(comps[k])
      ensures |rs| == |comps|
      ensures forall k :: 0 <= k < |comps| ==> rs[k] == CompactFragment(comps[k])
    {
      seq(|comps|, k requires 0 <= k < |comps| => CompactFragment(comps[k]))
    }

    /** `compact_path(path)` with the home directory's components passed in. */
    function CompactPath(home: seq<string>, path: seq<string>): string
      requires IsAscii(symbol) && forall k :: 0 <= k < |path| ==> IsAscii(path[k])
    {
      JoinWith(CompactAll(Components(home, path)), separator)
    }
  }

  /** `compact_path`'s input: ASCII components and symbol. */
  predicate AsciiInput(c: Compactor, path: seq<string>) {
    IsAscii(c.symbol) && forall k :: 0 <= k < |path| ==> IsAscii(path[k])
  }

  /** A component cannot bring the one-character separator `sep` into the output: either it
      is the root (compacted to nothing) or it does not contain `sep`. */
  predicate FreeOf(comp: string, sep: char) {
    IsRootFragment(comp) || sep !in comp
  }

  /** The builder chain the command line uses (src/main.rs:24-31) yields exactly the
      options given, later setters leaving earlier ones alone. */
  lemma BuilderChain(absolute: bool, limit: nat, symbol: string, threshold: nat, separator: string)
    ensures Compactor.New().WithAbsolute(absolute).WithLimit(limit).WithSymbol(symbol)
              .WithThreshold(threshold).WithSeparator(separator)
         == Compactor(threshold, limit, symbol, absolute, separator)
  {
  }

  /** A compacted component never contains the separator when the component did not. */
  lemma CompactedFreeOf(c: Compactor, comp: string, sep: char)
    requires IsAscii(comp) && FreeOf(comp, sep)
    ensures sep !in c.CompactFragment(comp)
  {
    CompactedBounds(comp, c.threshold, c.limit);
  }

  /** The output of `compact_path` is the compacted components, in their original order,
      joined by a one-character separator that none of them contains: splitting at the
      separator gives each component's `compact_fragment` back, and there are exactly one
      fewer separators than components. An empty component sequence gives "". */
  lemma CompactPathStructure(c: Compactor, home: seq<string>, path: seq<string>, sep: char)
    requires AsciiInput(c, path)
    requires c.separator == [sep]
    requires FreeOf(c.symbol, sep) && forall k :: 0 <= k < |path| ==> FreeOf(path[k], sep)
    ensures var comps := c.Components(home, path);
      var out := c.CompactPath(home, path);
      (comps == [] ==> out == "") &&
      (comps != [] ==>
        SplitAt(out, sep) == c.CompactAll(comps) &&
        Count(out, sep) == |comps| - 1)
  {
    var comps := c.Components(home, path);
    var parts := c.CompactAll(comps);
    forall k | 0 <= k < |parts| ensures sep !in parts[k] {
      assert comps[k] in comps;
      CompactedFreeOf(c, comps[k], sep);
    }
    if comps != [] {
      SplitJoin(parts, sep);
      SeparatorCount(parts, sep);
    }
  }
}
