/**
 * The two pure helpers of the pipeline: `to_bool`, which reads a yes/no verdict
 * out of free text, and `dict_to_jq_filter`, which assembles the verified
 * per-field fragments into one jq object-construction filter.
 */
module Helpers {
  import opened OrderedMaps

  // ---------------------------------------------------------------- to_bool

  /** Lower-casing of one character; only ASCII letters change. */
  function LowerChar(c: char): char
  {
    if 'A' <= c <= 'Z' then (c as int + 32) as char else c
  }

  /** Python's `str.lower()`, restricted to ASCII letters. */
  function Lower(s: string): string
  {
    seq(|s|, i requires 0 <= i < |s| => LowerChar(s[i]))
  }

  /** `p` occurs in `s` starting at position `i`. */
  ghost predicate OccursAt(p: string, s: string, i: nat)
  {
    i + |p| <= |s| && s[i..i + |p|] == p
  }

  /** `p` occurs as a contiguous piece of `s` (Python's `p in s` on strings). */
  ghost predicate Occurs(p: string, s: string)
  {
    exists i: nat :: OccursAt(p, s, i)
  }

  /** Substring search, scanning `s` left to right. */
  function Contains(s: string, p: string): bool
    decreases |s|
  {
    if |s| < |p| then false
    else if s[..|p|] == p then true
    else Contains(s[1..], p)
  }

  lemma {:induction false} ContainsIsOccurs(s: string, p: string)
    ensures Contains(s, p) <==> Occurs(p, s)
    decreases |s|
  {
    if |s| < |p| {
    } else if s[..|p|] == p {
      assert OccursAt(p, s, 0);
    } else {
      ContainsIsOccurs(s[1..], p);
      OccursPastFirst(s, p);
    }
  }

  /** When `p` does not start `s`, it occurs in `s` exactly when it occurs after the first character. */
  lemma OccursPastFirst(s: string, p: string)
    requires |s| >= |p| && s[..|p|] != p
    ensures Occurs(p, s) <==> Occurs(p, s[1..])
  {
    if Occurs(p, s[1..]) {
      var i: nat :| OccursAt(p, s[1..], i);
      assert s[i + 1..i + 1 + |p|] == s[1..][i..i + |p|];
      assert OccursAt(p, s, i + 1);
    }
    if Occurs(p, s) {
      var i: nat :| OccursAt(p, s, i);
      assert i != 0;
      assert s[1..][i - 1..i - 1 + |p|] == s[i..i + |p|];
      assert OccursAt(p, s[1..], i - 1);
    }
  }

  /**
   * `to_bool`: a response counts as true when its lower-cased text contains
   * "true", that is, exactly when four consecutive characters of it spell "true"
   * in any mix of cases.
   */
  function ToBool(response: string): (r: bool)
    ensures r <==> exists i: nat :: SpellsTrueAt(response, i)
  {
    LowerContainsTrue(response);
    Contains(Lower(response), "true")
  }

  /** Four consecutive characters of `s`, starting at `i`, spell "true" in some mix of cases. */
  predicate SpellsTrueAt(s: string, i: nat)
  {
    i + 4 <= |s| &&
    LowerChar(s[i]) == 't' && LowerChar(s[i + 1]) == 'r' &&
    LowerChar(s[i + 2]) == 'u' && LowerChar(s[i + 3]) == 'e'
  }

  /** Four characters spell "true" ignoring case exactly when their lower-cased text is "true". */
  lemma SpellsTrueIsLowerTrue(s: string, i: nat)
    requires i + 4 <= |s|
    ensures SpellsTrueAt(s, i) <==> Lower(s)[i..i + 4] == "true"
  {
    var w := Lower(s)[i..i + 4];
    assert w[0] == LowerChar(s[i]) && w[1] == LowerChar(s[i + 1]);
    assert w[2] == LowerChar(s[i + 2]) && w[3] == LowerChar(s[i + 3]);
    if SpellsTrueAt(s, i) {
      assert w == ['t', 'r', 'u', 'e'];
    }
  }

  /** The lower-cased text contains "true" exactly when some four consecutive characters spell "true", ignoring case. */
  lemma LowerContainsTrue(s: string)
    ensures Contains(Lower(s), "true") <==> exists i: nat :: SpellsTrueAt(s, i)
  {
    ContainsIsOccurs(Lower(s), "true");
    if Contains(Lower(s), "true") {
      var i: nat :| OccursAt("true", Lower(s), i);
      SpellsTrueIsLowerTrue(s, i);
    }
    if exists i: nat :: SpellsTrueAt(s, i) {
      var i: nat :| SpellsTrueAt(s, i);
      SpellsTrueIsLowerTrue(s, i);
      assert OccursAt("true", Lower(s), i);
    }
  }

  /** Lower-casing the response first does not change the verdict. */
  lemma ToBoolCaseInsensitive(s: string)
    ensures ToBool(Lower(s)) == ToBool(s)
  {
    assert Lower(Lower(s)) == Lower(s);
  }

  // ------------------------------------------------------ dict_to_jq_filter

  /** The text placed between two consecutive entries of the object filter. */
  const Separator := ",\n "

  /** One entry of the object filter: the key in double quotes, then `: `, then the path as given. */
  function RenderEntry(key: string, path: string): string
  {
    "\"" + key + "\": " + path
  }

  function RenderEntries(m: OMap<string>): seq<string>
  {
    seq(|m|, i requires 0 <= i < |m| => RenderEntry(m[i].0, m[i].1))
  }

  /** Python's `sep.join(parts)`. */
  function Join(parts: seq<string>, sep: string): string
  {
    if |parts| == 0 then ""
    else if |parts| == 1 then parts[0]
    else parts[0] + sep + Join(parts[1..], sep)
  }

  /**
   * `dict_to_jq_filter`: the entries, rendered and joined, between `{ ` and ` }`.
   * An empty dictionary gives exactly `{  }`; otherwise the length is that of the
   * rendered entries plus one three-character separator for each of the
   * `|m| - 1` gaps between neighbours.
   */
  function DictToJqFilter(m: OMap<string>): (f: string)
    ensures |f| >= 4 && f[..2] == "{ " && f[|f| - 2..] == " }"
    ensures |m| == 0 ==> f == "{  }"
    ensures |m| > 0 ==> |f| == 4 + TotalLength(RenderEntries(m)) + 3 * (|m| - 1)
  {
    JoinLength(RenderEntries(m), Separator);
    "{ " + Join(RenderEntries(m), Separator) + " }"
  }

  /**
   * The loop of `dict_to_jq_filter`: one rendered part per entry, in iteration
   * order, then the join. The text it builds opens with `{ ` and closes with ` }`,
   * is exactly `{  }` for an empty dictionary, and holds every entry verbatim as
   * `"key": path` at its offset, followed by `,\n ` unless it is the last.
   */
  method BuildJqFilter(m: OMap<string>) returns (filter: string)
    ensures filter == DictToJqFilter(m)
    ensures |filter| >= 4 && filter[..2] == "{ " && filter[|filter| - 2..] == " }"
    ensures |m| == 0 ==> filter == "{  }"
    ensures forall i :: 0 <= i < |m| ==>
      var at := 2 + Offset(RenderEntries(m), Separator, i);
      var entry := "\"" + m[i].0 + "\": " + m[i].1;
      && at + |entry| <= |filter|
      && filter[at..at + |entry|] == entry
      && (i + 1 < |m| ==> at + |entry| + 3 <= |filter| && filter[at + |entry|..at + |entry| + 3] == ",\n ")
  {
    var parts: seq<string> := [];
    var i := 0;
    while i < |m|
      invariant 0 <= i <= |m|
      invariant parts == RenderEntries(m[..i])
    {
      parts := parts + [RenderEntry(m[i].0, m[i].1)];
      i := i + 1;
    }
    assert m[..|m|] == m;
    filter := "{ " + Join(parts, Separator) + " }";
    forall i | 0 <= i < |m|
      ensures var at := 2 + Offset(RenderEntries(m), Separator, i);
        var entry := "\"" + m[i].0 + "\": " + m[i].1;
        && at + |entry| <= |filter|
        && filter[at..at + |entry|] == entry
        && (i + 1 < |m| ==> at + |entry| + 3 <= |filter| && filter[at + |entry|..at + |entry| + 3] == ",\n ")
    {
      FilterEntryAt(m, i);
    }
  }

  /** Where part `i` starts in `Join(parts, sep)`: after the join of the earlier parts and one separator. */
  function Offset(parts: seq<string>, sep: string, i: nat): nat
    requires i <= |parts|
  {
    if i == 0 then 0 else |Join(parts[..i], sep)| + |sep|
  }

  /** The sum of the lengths of `parts`. */
  function TotalLength(parts: seq<string>): nat
  {
    if |parts| == 0 then 0 else |parts[0]| + TotalLength(parts[1..])
  }

  /** A join holds every part and exactly one separator between each pair of neighbours. */
  lemma {:induction false} JoinLength(parts: seq<string>, sep: string)
    ensures |parts| > 0 ==> |Join(parts, sep)| == TotalLength(parts) + (|parts| - 1) * |sep|
  {
    if |parts| > 1 {
      JoinLength(parts[1..], sep);
      assert (|parts| - 1) * |sep| == (|parts| - 2) * |sep| + |sep|;
    }
  }

  /** Splitting the parts at `i` splits the join at a separator. */
  lemma {:induction false} JoinSplit(parts: seq<string>, sep: string, i: nat)
    requires 0 < i < |parts|
    ensures Join(parts, sep) == Join(parts[..i], sep) + sep + Join(parts[i..], sep)
  {
    if i > 1 {
      JoinSplit(parts[1..], sep, i - 1);
      assert parts[..i][1..] == parts[1..][..i - 1];
      assert parts[1..][i - 1..] == parts[i..];
    } else {
      assert parts[..1] == [parts[0]];
      assert parts[1..] == parts[i..];
    }
  }

  /** From the offset of part `i` on, the join is the join of the parts from `i` on. */
  lemma JoinSuffix(parts: seq<string>, sep: string, i: nat)
    requires i < |parts|
    ensures Offset(parts, sep, i) <= |Join(parts, sep)|
    ensures Join(parts, sep)[Offset(parts, sep, i)..] == Join(parts[i..], sep)
  {
    if i > 0 {
      JoinSplit(parts, sep, i);
    } else {
      assert parts[i..] == parts;
    }
  }

  /** Part `i` sits verbatim at `Offset(parts, sep, i)` of the join. */
  lemma JoinPartAt(parts: seq<string>, sep: string, i: nat)
    requires i < |parts|
    ensures Offset(parts, sep, i) + |parts[i]| <= |Join(parts, sep)|
    ensures Join(parts, sep)[Offset(parts, sep, i)..Offset(parts, sep, i) + |parts[i]|] == parts[i]
  {
    var p := parts[i];
    JoinSuffix(parts, sep, i);
    if i + 1 < |parts| {
      assert Join(parts[i..], sep) == p + sep + Join(parts[i + 1..], sep) by {
        assert parts[i..][1..] == parts[i + 1..];
      }
    } else {
      assert parts[i..] == [p];
    }
    assert Join(parts[i..], sep)[..|p|] == p;
  }

  /** Every part but the last is followed by the separator in the join. */
  lemma JoinSeparatorAfter(parts: seq<string>, sep: string, i: nat)
    requires i + 1 < |parts|
    ensures Offset(parts, sep, i) + |parts[i]| + |sep| <= |Join(parts, sep)|
    ensures Join(parts, sep)[Offset(parts, sep, i) + |parts[i]|..Offset(parts, sep, i) + |parts[i]| + |sep|] == sep
  {
    var p := parts[i];
    var tail := Join(parts[i..], sep);
    JoinSuffix(parts, sep, i);
    assert tail == p + sep + Join(parts[i + 1..], sep) by {
      assert parts[i..][1..] == parts[i + 1..];
    }
    assert tail[|p|..|p| + |sep|] == sep;
  }

  /**
   * Part `i` sits verbatim at `Offset(parts, sep, i)` of the join and, unless it is
   * the last part, is followed by the separator.
   */
  lemma JoinLayout(parts: seq<string>, sep: string, i: nat)
    requires i < |parts|
    ensures Offset(parts, sep, i) + |parts[i]| <= |Join(parts, sep)|
    ensures Join(parts, sep)[Offset(parts, sep, i)..Offset(parts, sep, i) + |parts[i]|] == parts[i]
    ensures i + 1 < |parts| ==> Offset(parts, sep, i) + |parts[i]| + |sep| <= |Join(parts, sep)|
    ensures i + 1 < |parts| ==>
      Join(parts, sep)[Offset(parts, sep, i) + |parts[i]|..Offset(parts, sep, i) + |parts[i]| + |sep|] == sep
  {
    JoinPartAt(parts, sep, i);
    if i + 1 < |parts| {
      JoinSeparatorAfter(parts, sep, i);
    }
  }

  /** Joining one more part appends a separator and that part. */
  lemma {:induction false} JoinAppend(parts: seq<string>, sep: string, x: string)
    requires |parts| > 0
    ensures Join(parts + [x], sep) == Join(parts, sep) + sep + x
  {
    if |parts| > 1 {
      assert (parts + [x])[1..] == parts[1..] + [x];
      JoinAppend(parts[1..], sep, x);
    } else {
      assert (parts + [x])[1..] == [x];
    }
  }

  /**
   * Entry `i` of the dictionary appears in the filter as `"key": path`, verbatim,
   * two characters after the offset of the `i`-th part, and is followed by the
   * separator `,\n ` unless it is the last entry: entries keep the dictionary's order.
   */
  lemma FilterEntryAt(m: OMap<string>, i: nat)
    requires i < |m|
    ensures var at := 2 + Offset(RenderEntries(m), Separator, i);
      var entry := "\"" + m[i].0 + "\": " + m[i].1;
      && at + |entry| <= |DictToJqFilter(m)|
      && DictToJqFilter(m)[at..at + |entry|] == entry
      && (i + 1 < |m| ==> at + |entry| + 3 <= |DictToJqFilter(m)|)
      && (i + 1 < |m| ==> DictToJqFilter(m)[at + |entry|..at + |entry| + 3] == ",\n ")
  {
    var parts := RenderEntries(m);
    var j := Join(parts, Separator);
    JoinLayout(parts, Separator, i);
    var o := Offset(parts, Separator, i);
    var e := parts[i];
    assert e == RenderEntry(m[i].0, m[i].1);
    BracedSlice(j, o, o + |e|);
    if i + 1 < |m| {
      assert |Separator| == 3;
      BracedSlice(j, o + |e|, o + |e| + 3);
      assert DictToJqFilter(m)[2 + o + |e|..2 + o + |e| + 3] == Separator;
    }
  }

  /** A slice of the joined entries reappears two characters later in the braced filter. */
  lemma BracedSlice(j: string, lo: nat, hi: nat)
    requires lo <= hi <= |j|
    ensures ("{ " + j + " }")[2 + lo..2 + hi] == j[lo..hi]
  {
    var f := "{ " + j + " }";
    forall k | 0 <= k < hi - lo
      ensures f[2 + lo..2 + hi][k] == j[lo..hi][k]
    {
      assert f[2 + lo + k] == j[lo + k];
    }
  }

  /** Rendering a dictionary with one more entry renders that entry last. */
  lemma RenderEntriesAppend(m: OMap<string>, key: string, path: string)
    ensures RenderEntries(m + [(key, path)]) == RenderEntries(m) + [RenderEntry(key, path)]
  {
  }

  /**
   * Inserting one more key into the dictionary puts its entry last: the new filter
   * is the old one with ` }` replaced by the separator, the new entry and ` }`.
   */
  lemma FilterAppend(m: OMap<string>, key: string, path: string)
    ensures |m| == 0 ==> DictToJqFilter(m + [(key, path)]) == "{ \"" + key + "\": " + path + " }"
    ensures |m| > 0 ==>
      DictToJqFilter(m + [(key, path)]) == DictToJqFilter(m)[..|DictToJqFilter(m)| - 2] + ",\n \"" + key + "\": " + path + " }"
  {
    RenderEntriesAppend(m, key, path);
    if |m| > 0 {
      var j := Join(RenderEntries(m), Separator);
      JoinAppend(RenderEntries(m), Separator, RenderEntry(key, path));
      var f := DictToJqFilter(m);
      assert f[..|f| - 2] == "{ " + j;
    }
  }
}
