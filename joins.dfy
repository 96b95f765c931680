/** Joining strings with a separator (`[String]::join`) and its partners, `str::split` at
    one character and counting occurrences. */
module Joins {

  /** `[String]::join(sep)`. */
  function JoinWith(parts: seq<string>, sep: string): string {
    if |parts| == 0 then ""
    else if |parts| == 1 then parts[0]
    else parts[0] + sep + JoinWith(parts[1..], sep)
  }

  /** `str::split(c)`: the pieces between occurrences of `c`, empty pieces included. */
  function SplitAt(s: string, c: char): (r: seq<string>)
    ensures |r| >= 1
  {
    if s == [] then [[]]
    else
      var rest := SplitAt(s[1..], c);
      if s[0] == c then [[]] + rest else [[s[0]] + rest[0]] + rest[1..]
  }

  /** The number of occurrences of `c` in `s`. */
  function Count(s: string, c: char): nat {
    if s == [] then 0 else (if s[0] == c then 1 else 0) + Count(s[1..], c)
  }

  /** Concatenation regroups freely. */
  lemma AppendAssoc(x: string, y: string, z: string)
    ensures x + (y + z) == (x + y) + z
  {
  }

  /** Extending the first part at its front extends the join at its front. */
  lemma JoinExtendFirst(a: string, x: string, rest: seq<string>, sep: string)
    ensures JoinWith([a + x] + rest, sep) == a + JoinWith([x] + rest, sep)
  {
    assert ([a + x] + rest)[1..] == rest == ([x] + rest)[1..];
  }

  // ---------------------------------------------------------------------------

  /** A prefix without `c` merges into the first piece of the split. */
  lemma {:induction false} SplitAfterPlain(w: string, s: string, c: char)
    requires c !in w
    ensures SplitAt(w + s, c) == [w + SplitAt(s, c)[0]] + SplitAt(s, c)[1..]
  {
    if w == [] {
      var r := SplitAt(s, c);
      assert w + s == s && w + r[0] == r[0];
      assert [r[0]] + r[1..] == r;
    } else {
      assert (w + s)[1..] == w[1..] + s;
      SplitAfterPlain(w[1..], s, c);
      assert [w[0]] + (w[1..] + SplitAt(s, c)[0]) == w + SplitAt(s, c)[0];
    }
  }

  /** Splitting a join at a one-character separator that occurs in none of the parts gives
      the parts back. */
  lemma {:induction false} SplitJoin(parts: seq<string>, c: char)
    requires |parts| >= 1
    requires forall k :: 0 <= k < |parts| ==> c !in parts[k]
    ensures SplitAt(JoinWith(parts, [c]), c) == parts
  {
    if |parts| == 1 {
      SplitAfterPlain(parts[0], [], c);
      assert parts[0] + [] == parts[0];
    } else {
      var tail := JoinWith(parts[1..], [c]);
      SplitJoin(parts[1..], c);
      assert parts[0] + [c] + tail == parts[0] + ([c] + tail);
      SplitAfterPlain(parts[0], [c] + tail, c);
      assert ([c] + tail)[1..] == tail;
      assert parts[0] + [] == parts[0];
      assert parts == [parts[0]] + parts[1..];
    }
  }

  lemma {:induction false} CountAppend(a: string, b: string, c: char)
    ensures Count(a + b, c) == Count(a, c) + Count(b, c)
  {
    if a == [] {
      assert a + b == b;
    } else {
      assert (a + b)[1..] == a[1..] + b;
      CountAppend(a[1..], b, c);
    }
  }

  lemma {:induction false} CountAbsent(s: string, c: char)
    requires c !in s
    ensures Count(s, c) == 0
  {
    if s != [] {
      CountAbsent(s[1..], c);
    }
  }

  /** Joining n parts that do not contain the one-character separator puts exactly n - 1
      separators into the result. */
  lemma {:induction false} SeparatorCount(parts: seq<string>, c: char)
    requires |parts| >= 1
    requires forall k :: 0 <= k < |parts| ==> c !in parts[k]
    ensures Count(JoinWith(parts, [c]), c) == |parts| - 1
  {
    CountAbsent(parts[0], c);
    if |parts| > 1 {
      SeparatorCount(parts[1..], c);
      CountAppend(parts[0] + [c], JoinWith(parts[1..], [c]), c);
      CountAppend(parts[0], [c], c);
      assert [c][1..] == [];
    }
  }
}
