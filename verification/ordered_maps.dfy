/**
 * Python dictionaries with string keys, as the pipeline uses them: a sequence of
 * (key, value) entries in insertion order. Iterating `items()` visits the entries
 * in that order, assignment to a new key appends, and a comprehension with a
 * condition keeps the passing entries in their original order.
 */
module OrderedMaps {
  import opened Wrappers

  type OMap<V> = seq<(string, V)>

  function Keys<V>(m: OMap<V>): seq<string>
  {
    seq(|m|, i requires 0 <= i < |m| => m[i].0)
  }

  /** Every key occurs once, as in any Python dict. */
  predicate DistinctKeys<V>(m: OMap<V>)
  {
    forall i, j :: 0 <= i < j < |m| ==> m[i].0 != m[j].0
  }

  /** Position of the entry for `k`, or `|m|` when there is none. */
  function IndexOf<V>(m: OMap<V>, k: string): (i: nat)
    ensures i <= |m|
    ensures i < |m| ==> m[i].0 == k
    ensures forall j :: 0 <= j < i ==> m[j].0 != k
  {
    if |m| == 0 then 0
    else if m[0].0 == k then 0
    else 1 + IndexOf(m[1..], k)
  }

  lemma KeysMembership<V>(m: OMap<V>, k: string)
    ensures k in Keys(m) <==> IndexOf(m, k) < |m|
  {
    if IndexOf(m, k) < |m| {
      assert Keys(m)[IndexOf(m, k)] == k;
    }
  }

  /** Python's `m.get(k)`. */
  function Get<V>(m: OMap<V>, k: string): (r: Option<V>)
    ensures r.Some? <==> k in Keys(m)
    ensures r.Some? ==> (k, r.value) in m
  {
    KeysMembership(m, k);
    var i := IndexOf(m, k);
    if i < |m| then Some(m[i].1) else None
  }

  /** Python's `m[k] = v`: an existing key keeps its position, a new key is appended. */
  function Put<V>(m: OMap<V>, k: string, v: V): (r: OMap<V>)
    ensures k !in Keys(m) ==> r == m + [(k, v)]
    ensures k in Keys(m) ==> Keys(r) == Keys(m)
    ensures Get(r, k) == Some(v)
    ensures forall k' :: k' != k ==> Get(r, k') == Get(m, k')
    ensures DistinctKeys(m) ==> DistinctKeys(r)
  {
    KeysMembership(m, k);
    var i := IndexOf(m, k);
    var r := if i < |m| then m[i := (k, v)] else m + [(k, v)];
    assert forall j :: 0 <= j < |m| ==> r[j].0 == m[j].0 by {
      if i == |m| {
        assert r[..|m|] == m;
      }
    }
    assert Get(r, k) == Some(v) by {
      IndexOfAt(r, k, i);
    }
    OtherKeysUnchanged(m, r, k);
    r
  }

  /**
   * Overwriting the value of `k` in place, or appending an entry for `k`, leaves
   * every other key's lookup as it was.
   */
  lemma OtherKeysUnchanged<V>(m: OMap<V>, r: OMap<V>, k: string)
    requires |r| == |m| || (|r| == |m| + 1 && r[|m|].0 == k)
    requires forall j :: 0 <= j < |m| ==> r[j].0 == m[j].0 && (m[j].0 != k ==> r[j] == m[j])
    ensures forall k' :: k' != k ==> Get(r, k') == Get(m, k')
  {
    forall k' | k' != k
      ensures Get(r, k') == Get(m, k')
    {
      var p := IndexOf(m, k');
      if p < |m| {
        IndexOfAt(r, k', p);
      } else {
        IndexOfAt(r, k', |r|);
      }
    }
  }

  /** The first entry whose key is `k` sits at position `p` (`p == |m|` when there is none). */
  lemma IndexOfAt<V>(m: OMap<V>, k: string, p: nat)
    requires p <= |m|
    requires p < |m| ==> m[p].0 == k
    requires forall j :: 0 <= j < p ==> m[j].0 != k
    ensures IndexOf(m, k) == p
  {
  }

  /**
   * The scan `for k, v in m.items(): if k not in done: break`: the position of the
   * first entry whose key is not in `done`, or `|m|` when every key is.
   */
  function FirstNotIn<V>(m: OMap<V>, done: seq<string>): (i: nat)
    ensures i <= |m|
    ensures i < |m| ==> m[i].0 !in done
    ensures forall j :: 0 <= j < i ==> m[j].0 in done
  {
    if |m| == 0 then 0
    else if m[0].0 !in done then 0
    else 1 + FirstNotIn(m[1..], done)
  }

  /** The scan stops at `n` when every key before `n` is in `done` and the key at `n` is not. */
  lemma FirstNotInAt<V>(m: OMap<V>, done: seq<string>, n: nat)
    requires n <= |m|
    requires forall j :: 0 <= j < n ==> m[j].0 in done
    requires n < |m| ==> m[n].0 !in done
    ensures FirstNotIn(m, done) == n
  {
    var i := FirstNotIn(m, done);
    if i < n {
    } else if i > n {
    }
  }

  /**
   * Python's `{k: v for k, v in m.items() if keep(v)}`: the entries whose value
   * passes `keep`, in their original order.
   */
  function Select<V>(m: OMap<V>, keep: V -> bool): (r: OMap<V>)
    ensures forall i :: 0 <= i < |r| ==> r[i] in m && keep(r[i].1)
    ensures forall i :: 0 <= i < |m| && keep(m[i].1) ==> m[i] in r
    ensures IsSubsequence(Keys(r), Keys(m))
  {
    if |m| == 0 then []
    else
      var rest := Select(m[1..], keep);
      assert Keys(m)[1..] == Keys(m[1..]);
      if keep(m[0].1) then
        assert Keys([m[0]] + rest)[1..] == Keys(rest);
        [m[0]] + rest
      else
        SubsequenceWeaken(Keys(rest), Keys(m));
        rest
  }

  lemma SelectKeepsDistinct<V>(m: OMap<V>, keep: V -> bool)
    requires DistinctKeys(m)
    ensures DistinctKeys(Select(m, keep))
  {
    if |m| > 0 {
      SelectKeepsDistinct(m[1..], keep);
      var rest := Select(m[1..], keep);
      forall i | 0 <= i < |rest|
        ensures rest[i].0 != m[0].0
      {
        var j :| 0 <= j < |m[1..]| && m[1..][j] == rest[i];
        assert m[j + 1] == rest[i];
      }
    }
  }

  /** `a` is `b` with some elements left out: the order of what remains is kept. */
  predicate IsSubsequence<T(==)>(a: seq<T>, b: seq<T>)
    decreases |b|
  {
    if |a| == 0 then true
    else if |b| == 0 then false
    else if a[0] == b[0] then IsSubsequence(a[1..], b[1..])
    else IsSubsequence(a, b[1..])
  }

  lemma {:induction false} SubsequenceWeaken<T>(a: seq<T>, b: seq<T>)
    requires |b| > 0 && IsSubsequence(a, b[1..])
    ensures IsSubsequence(a, b)
    decreases |b|, 0
  {
    if |a| > 0 && a[0] == b[0] {
      SubsequenceTail(a, b[1..]);
    }
  }

  lemma {:induction false} SubsequenceTail<T>(a: seq<T>, c: seq<T>)
    requires |a| > 0 && IsSubsequence(a, c)
    ensures IsSubsequence(a[1..], c)
    decreases |c|, 1
  {
    if a[0] == c[0] {
      SubsequenceWeaken(a[1..], c);
    } else {
      SubsequenceTail(a, c[1..]);
      SubsequenceWeaken(a[1..], c);
    }
  }

  lemma {:induction false} SubsequenceTransitive<T>(a: seq<T>, b: seq<T>, c: seq<T>)
    requires IsSubsequence(a, b) && IsSubsequence(b, c)
    ensures IsSubsequence(a, c)
    decreases |c|
  {
    if |a| > 0 {
      if b[0] == c[0] {
        if a[0] == b[0] {
          SubsequenceTransitive(a[1..], b[1..], c[1..]);
        } else {
          SubsequenceTransitive(a, b[1..], c[1..]);
          SubsequenceWeaken(a, c);
        }
      } else {
        SubsequenceTransitive(a, b, c[1..]);
        SubsequenceWeaken(a, c);
      }
    }
  }

  lemma {:induction false} SubsequenceReflexive<T>(a: seq<T>)
    ensures IsSubsequence(a, a)
  {
    if |a| > 0 {
      SubsequenceReflexive(a[1..]);
    }
  }
}
