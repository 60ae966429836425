/** The observable contract of the stemmer's suffix tree: a finite table from
    suffixes to values, with one integer property ("size") that callers use as
    a minimum query length. Only what a caller can observe is modelled; the
    reverse-character trie that implements it is not. */
module SuffixTrees {

  /** `s` is a (possibly empty, possibly whole) suffix of `w`. */
  predicate IsSuffix(s: string, w: string) {
    |s| <= |w| && w[|w| - |s|..] == s
  }

  /** A populated, read-only suffix tree. `minSize` is the "size" property,
      which defaults to 0 when the rule file does not set it. */
  datatype SuffixTree<V> = SuffixTree(entries: map<string, V>, minSize: int)

  /** The registered suffixes of `w` whose length is below `n`, each with its
      value, shortest first. */
  function Collect<V>(m: map<string, V>, w: string, n: nat): seq<(string, V)>
    requires n <= |w| + 1
  {
    if n == 0 then []
    else
      var s := w[|w| - (n - 1)..];
      if s in m then Collect(m, w, n - 1) + [(s, m[s])] else Collect(m, w, n - 1)
  }

  /** Every element of `Collect(m, w, n)` is a registered suffix of `w`
      shorter than `n`, paired with its value, and lengths strictly ascend. */
  lemma {:induction false} CollectSound<V>(m: map<string, V>, w: string, n: nat)
    requires n <= |w| + 1
    ensures forall i :: 0 <= i < |Collect(m, w, n)| ==>
      var p := Collect(m, w, n)[i];
      p.0 in m && m[p.0] == p.1 && IsSuffix(p.0, w) && |p.0| < n
    ensures forall i, j :: 0 <= i < j < |Collect(m, w, n)| ==>
      |Collect(m, w, n)[i].0| < |Collect(m, w, n)[j].0|
  {
    if n > 0 {
      CollectSound(m, w, n - 1);
    }
  }

  /** Every registered suffix of `w` shorter than `n` occurs in `Collect(m, w, n)`. */
  lemma {:induction false} CollectComplete<V>(m: map<string, V>, w: string, n: nat, s: string)
    requires n <= |w| + 1
    requires s in m && IsSuffix(s, w) && |s| < n
    ensures exists i :: 0 <= i < |Collect(m, w, n)| && Collect(m, w, n)[i].0 == s
  {
    var prev := Collect(m, w, n - 1);
    if |s| < n - 1 {
      CollectComplete(m, w, n - 1, s);
      var i :| 0 <= i < |prev| && prev[i].0 == s;
      assert Collect(m, w, n)[i] == prev[i];
    } else {
      assert s == w[|w| - (n - 1)..];
      assert Collect(m, w, n)[|prev|].0 == s;
    }
  }

  /** Every registered suffix of `w` with its value, shortest first, so that a
      caller scanning from the end meets the longest match first. No
      non-matching suffix is ever returned. */
  function LongestSuffixesAndValues<V>(t: SuffixTree<V>, w: string): (r: seq<(string, V)>)
    ensures forall i :: 0 <= i < |r| ==>
      r[i].0 in t.entries && t.entries[r[i].0] == r[i].1 && IsSuffix(r[i].0, w)
    ensures forall i, j :: 0 <= i < j < |r| ==> |r[i].0| < |r[j].0|
  {
    CollectSound(t.entries, w, |w| + 1);
    Collect(t.entries, w, |w| + 1)
  }

  /** No registered suffix of `w` is missing from the match list. */
  lemma LongestSuffixesComplete<V>(t: SuffixTree<V>, w: string, s: string)
    requires s in t.entries && IsSuffix(s, w)
    ensures exists i :: 0 <= i < |LongestSuffixesAndValues(t, w)| &&
                        LongestSuffixesAndValues(t, w)[i].0 == s
  {
    assert LongestSuffixesAndValues(t, w) == Collect(t.entries, w, |w| + 1);
    CollectComplete(t.entries, w, |w| + 1, s);
  }
}
