/** J. Savoy's light stemmer for Portuguese (ACM SAC 2006): plural
    reduction and feminine reduction by longest-suffix rules, then a
    hard-coded trim of one final vowel. */
module SavoyStemmer {
  import opened SuffixTrees

  /** A rule fires only when the word's length minus one exceeds `size`;
      it then replaces the matched suffix with `replacement`. */
  datatype Rule = Rule(size: int, replacement: string)

  /** The three tables a successful load of the rule file provides. The
      final-vowel table is loaded but never read by the algorithm. */
  datatype RuleSet = RuleSet(
    pluralReduction: SuffixTree<Rule>,
    feminineReduction: SuffixTree<Rule>,
    finalVowel: SuffixTree<Rule>)

  /** What a call to the stemmer yields: a stem, or the index that Java's
      `charAt` rejects with StringIndexOutOfBoundsException. */
  datatype Outcome = Stemmed(stem: string) | IndexOutOfBounds(index: int)

  /** `st` with its trailing `suffix` characters replaced by `replacement`. */
  function Replace(st: string, suffix: string, replacement: string): (r: string)
    requires |suffix| <= |st|
    ensures |r| == |st| - |suffix| + |replacement|
    ensures r[..|st| - |suffix|] == st[..|st| - |suffix|]
    ensures r[|st| - |suffix|..] == replacement
  {
    st[..|st| - |suffix|] + replacement
  }

  /** `s` is a registered suffix of `st` whose rule guard holds; the guard
      compares the length of the whole word `st`, not of the would-be stem. */
  ghost predicate Candidate(rules: SuffixTree<Rule>, st: string, s: string) {
    s in rules.entries && IsSuffix(s, st) && |st| - 1 > rules.entries[s].size
  }

  /** `s` is the longest candidate: the suffix whose rule applyRules fires. */
  ghost predicate LongestCandidate(rules: SuffixTree<Rule>, st: string, s: string) {
    Candidate(rules, st, s) && forall s' :: Candidate(rules, st, s') ==> |s'| <= |s|
  }

  /** Every suffix in the match list `res` fits in the word `st`. */
  ghost predicate Fits(res: seq<(string, Rule)>, st: string) {
    forall i :: 0 <= i < |res| ==> |res[i].0| <= |st|
  }

  /** The scan of applyRules over a match list, from its last (longest)
      element to its first: the first pair whose guard holds is applied. */
  function ScanFromLongest(res: seq<(string, Rule)>, length: int, st: string): (r: string)
    requires Fits(res, st)
    ensures res == [] ==> r == st
    ensures res != [] && length > res[|res| - 1].1.size ==>
      r == Replace(st, res[|res| - 1].0, res[|res| - 1].1.replacement)
    decreases |res|
  {
    if res == [] then st
    else
      var (suffix, rule) := res[|res| - 1];
      if length > rule.size then Replace(st, suffix, rule.replacement)
      else ScanFromLongest(res[..|res| - 1], length, st)
  }

  /** The result of applyRules on word `st` and table `rules`. */
  function Reduce(st: string, rules: SuffixTree<Rule>): (r: string)
    ensures |st| - 1 < rules.minSize ==> r == st
  {
    if |st| - 1 < rules.minSize then st
    else
      var res := LongestSuffixesAndValues(rules, st);
      ScanFromLongest(res, |st| - 1, st)
  }

  /** The scan either returns the word or applies some entry whose guard
      holds. */
  lemma {:induction false} ScanShape(res: seq<(string, Rule)>, length: int, st: string)
    requires Fits(res, st)
    ensures var r := ScanFromLongest(res, length, st);
      r == st || exists i :: 0 <= i < |res| && length > res[i].1.size &&
                             r == Replace(st, res[i].0, res[i].1.replacement)
    decreases |res|
  {
    if res != [] && length <= res[|res| - 1].1.size {
      var prefix := res[..|res| - 1];
      ScanShape(prefix, length, st);
      var r := ScanFromLongest(prefix, length, st);
      if r != st {
        var i :| 0 <= i < |prefix| && length > prefix[i].1.size &&
                 r == Replace(st, prefix[i].0, prefix[i].1.replacement);
        assert prefix[i] == res[i];
      }
    }
  }

  /** applyRules never applies a non-matching suffix: when it changes the
      word, the result is the word with some registered suffix, whose guard
      holds on the original word, replaced by that suffix's replacement. */
  lemma ReduceShape(st: string, rules: SuffixTree<Rule>)
    ensures var r := Reduce(st, rules);
      r == st || exists s :: Candidate(rules, st, s) &&
                             r == Replace(st, s, rules.entries[s].replacement)
  {
    if |st| - 1 >= rules.minSize {
      var res := LongestSuffixesAndValues(rules, st);
      ScanShape(res, |st| - 1, st);
      var r := ScanFromLongest(res, |st| - 1, st);
      if r != st {
        var i :| 0 <= i < |res| && |st| - 1 > res[i].1.size &&
                 r == Replace(st, res[i].0, res[i].1.replacement);
        assert Candidate(rules, st, res[i].0);
      }
    }
  }

  /** Scanning stops at the highest index whose guard holds. */
  lemma {:induction false} ScanPicks(res: seq<(string, Rule)>, length: int, st: string, i: nat)
    requires Fits(res, st)
    requires i < |res| && length > res[i].1.size
    requires forall j :: i < j < |res| ==> length <= res[j].1.size
    ensures ScanFromLongest(res, length, st) == Replace(st, res[i].0, res[i].1.replacement)
    decreases |res|
  {
    if i < |res| - 1 {
      var prefix := res[..|res| - 1];
      assert prefix[i] == res[i];
      ScanPicks(prefix, length, st, i);
    }
  }

  /** Scanning a list in which no guard holds returns the word unchanged. */
  lemma {:induction false} ScanNone(res: seq<(string, Rule)>, length: int, st: string)
    requires Fits(res, st)
    requires forall k :: 0 <= k < |res| ==> length <= res[k].1.size
    ensures ScanFromLongest(res, length, st) == st
    decreases |res|
  {
    if res != [] {
      ScanNone(res[..|res| - 1], length, st);
    }
  }

  /** The longest candidate sits in the match list at an index above which
      every guard fails. */
  lemma LocateLongestCandidate(st: string, rules: SuffixTree<Rule>, s: string)
    returns (i: nat)
    requires LongestCandidate(rules, st, s)
    ensures var res := LongestSuffixesAndValues(rules, st);
      i < |res| && res[i] == (s, rules.entries[s]) &&
      forall j :: i < j < |res| ==> |st| - 1 <= res[j].1.size
  {
    var res := LongestSuffixesAndValues(rules, st);
    LongestSuffixesComplete(rules, st, s);
    i :| 0 <= i < |res| && res[i].0 == s;
    forall j | i < j < |res| ensures |st| - 1 <= res[j].1.size {
      LongerMatchFails(rules, st, s, res[j].0);
    }
  }

  /** A registered suffix longer than the longest candidate fails its guard. */
  lemma LongerMatchFails(rules: SuffixTree<Rule>, st: string, s: string, s': string)
    requires LongestCandidate(rules, st, s)
    requires s' in rules.entries && IsSuffix(s', st) && |s| < |s'|
    ensures |st| - 1 <= rules.entries[s'].size
  {
  }

  /** Longest match wins, and guards fall back to shorter matches: once the
      word reaches the table's minimum size, applyRules applies the rule of
      the longest registered suffix whose guard holds, whatever longer
      registered suffixes fail their guard and whatever shorter ones pass. */
  lemma ReduceAppliesLongestCandidate(st: string, rules: SuffixTree<Rule>, s: string)
    requires |st| - 1 >= rules.minSize
    requires LongestCandidate(rules, st, s)
    ensures Reduce(st, rules) == Replace(st, s, rules.entries[s].replacement)
  {
    var res := LongestSuffixesAndValues(rules, st);
    var i := LocateLongestCandidate(st, rules, s);
    ScanPicks(res, |st| - 1, st, i);
  }

  /** When no registered suffix of `st` passes its guard, applyRules returns
      `st` unchanged. */
  lemma ReduceWithoutCandidate(st: string, rules: SuffixTree<Rule>)
    requires forall s :: !Candidate(rules, st, s)
    ensures Reduce(st, rules) == st
  {
    if |st| - 1 >= rules.minSize {
      var res := LongestSuffixesAndValues(rules, st);
      forall k | 0 <= k < |res| ensures |st| - 1 <= res[k].1.size {
        assert !Candidate(rules, st, res[k].0);
      }
      ScanNone(res, |st| - 1, st);
    }
  }

  /** Whenever some candidate exists, a longest one does, so the two lemmas
      above decide Reduce on every input. */
  lemma LongestCandidateExists(rules: SuffixTree<Rule>, st: string, s0: string)
    requires Candidate(rules, st, s0)
    ensures exists s :: LongestCandidate(rules, st, s)
  {
    LongestCandidateAtMost(rules, st, s0, |st|);
  }

  /** The search behind LongestCandidateExists: with every candidate at most
      `k` long, try the suffix of length `k`, then shorter ones. */
  lemma {:induction false} LongestCandidateAtMost(rules: SuffixTree<Rule>, st: string, s0: string, k: nat)
    requires Candidate(rules, st, s0) && |s0| <= k
    requires forall s :: Candidate(rules, st, s) ==> |s| <= k
    ensures exists s :: LongestCandidate(rules, st, s)
    decreases k
  {
    if k > |st| {
      LongestCandidateAtMost(rules, st, s0, k - 1);
    } else {
      var top := st[|st| - k..];
      if Candidate(rules, st, top) {
        assert LongestCandidate(rules, st, top);
      } else {
        forall s | Candidate(rules, st, s) ensures |s| != k { }
        LongestCandidateAtMost(rules, st, s0, k - 1);
      }
    }
  }

  /** One step of the scan: the entry at index `i` is applied when its guard
      holds, and otherwise the scan goes on with the entries below it. */
  lemma ScanStep(res: seq<(string, Rule)>, length: int, st: string, i: nat)
    requires Fits(res, st) && i < |res|
    ensures Fits(res[..i + 1], st) && Fits(res[..i], st)
    ensures ScanFromLongest(res[..i + 1], length, st) ==
      if length > res[i].1.size then Replace(st, res[i].0, res[i].1.replacement)
      else ScanFromLongest(res[..i], length, st)
  {
    assert res[..i + 1][i] == res[i];
    assert res[..i + 1][..i] == res[..i];
  }

  /** The loop of applyRules: below the table's minimum size the word is
      returned as is; otherwise the match list is walked from its longest
      entry down and the first rule whose guard holds is applied. */
  method ApplyRules(st: string, rules: SuffixTree<Rule>) returns (r: string)
    ensures r == Reduce(st, rules)
  {
    var length := |st| - 1;
    if length < rules.minSize {
      return st;
    }
    var res := LongestSuffixesAndValues(rules, st);
    assert res[..|res|] == res;
    var i := |res| - 1;
    while i >= 0
      invariant -1 <= i < |res|
      invariant ScanFromLongest(res[..i + 1], length, st) == ScanFromLongest(res, length, st)
      decreases i + 1
    {
      var (suffix, rule) := res[i];
      ScanStep(res, length, st, i);
      if length > rule.size {
        return st[..|st| - |suffix|] + rule.replacement;
      }
      i := i - 1;
    }
    assert res[..0] == [];
    return st;
  }

  /** The vowels the last step trims. */
  predicate IsFinalVowel(c: char) {
    c == 'a' || c == 'e' || c == 'o'
  }

  /** Feminine reduction runs only on words longer than six characters that
      end in 'a'. */
  function FeminineStep(w: string, rules: SuffixTree<Rule>): (r: string)
    ensures !(|w| > 6 && w[|w| - 1] == 'a') ==> r == w
    ensures |w| > 6 && w[|w| - 1] == 'a' ==> r == Reduce(w, rules)
  {
    if |w| - 1 > 5 && w[|w| - 1] == 'a' then Reduce(w, rules) else w
  }

  /** The last step reads the final character unconditionally, so an empty
      word fails with index -1; otherwise a final a, e or o is dropped from a
      word longer than four characters. No rule table is consulted. */
  function FinalVowelTrim(w: string): (r: Outcome)
    ensures r.IndexOutOfBounds? <==> w == []
    ensures r.IndexOutOfBounds? ==> r.index == -1
    ensures r.Stemmed? ==> |r.stem| <= |w| && r.stem == w[..|r.stem|]
    ensures r.Stemmed? ==> (|r.stem| < |w| <==> |w| > 4 && IsFinalVowel(w[|w| - 1]))
    ensures r.Stemmed? ==> |w| - |r.stem| <= 1
  {
    var length := |w| - 1;
    if length < 0 then IndexOutOfBounds(length)
    else if length > 3 && IsFinalVowel(w[length]) then Stemmed(w[..length])
    else Stemmed(w)
  }

  /** The whole algorithm: words of at most three characters are returned as
      they are; longer ones go through plural reduction, the guarded feminine
      reduction and the final-vowel trim, in that order. */
  function Stem(rs: RuleSet, word: string): (r: Outcome)
    ensures |word| <= 3 ==> r == Stemmed(word)
    ensures r.IndexOutOfBounds? ==> r.index == -1 && |word| > 3
  {
    if |word| - 1 <= 2 then Stemmed(word)
    else
      var plural := Reduce(word, rs.pluralReduction);
      FinalVowelTrim(FeminineStep(plural, rs.feminineReduction))
  }

  /** algorithm, as the source writes it, with the read of the last
      character at a possibly negative index made explicit. */
  method Algorithm(rs: RuleSet, word: string) returns (r: Outcome)
    ensures r == Stem(rs, word)
  {
    var w := word;
    var length := |w| - 1;
    if length > 2 {
      w := ApplyRules(w, rs.pluralReduction);
      length := |w| - 1;
      if length > 5 && w[length] == 'a' {
        w := ApplyRules(w, rs.feminineReduction);
      }
      length := |w| - 1;
      if length < 0 {
        return IndexOutOfBounds(length);
      }
      var lastChar := w[length];
      if length > 3 && (lastChar == 'a' || lastChar == 'e' || lastChar == 'o') {
        w := w[..length];
      }
    }
    return Stemmed(w);
  }

  /** A table that can never rewrite a whole word to the empty string: each
      rule either has a non-empty replacement or a guard that rejects words
      no longer than its suffix. */
  ghost predicate NeverEmpties(rules: SuffixTree<Rule>) {
    forall s :: s in rules.entries ==>
      rules.entries[s].replacement != [] || rules.entries[s].size >= |s| - 1
  }

  /** A table whose replacements are never longer than their suffixes. */
  ghost predicate NonLengthening(rules: SuffixTree<Rule>) {
    forall s :: s in rules.entries ==> |rules.entries[s].replacement| <= |s|
  }

  /** applyRules leaves a non-empty word non-empty under such a table. */
  lemma ReduceKeepsNonEmpty(st: string, rules: SuffixTree<Rule>)
    requires NeverEmpties(rules) && st != []
    ensures Reduce(st, rules) != []
  {
    ReduceShape(st, rules);
  }

  /** With both reduction tables free of whole-word deletions, the read at
      the last index never fails and the stemmer is total. */
  lemma StemTotal(rs: RuleSet, word: string)
    requires NeverEmpties(rs.pluralReduction) && NeverEmpties(rs.feminineReduction)
    ensures Stem(rs, word).Stemmed?
  {
    if |word| > 3 {
      var plural := Reduce(word, rs.pluralReduction);
      ReduceKeepsNonEmpty(word, rs.pluralReduction);
      if |plural| - 1 > 5 && plural[|plural| - 1] == 'a' {
        ReduceKeepsNonEmpty(plural, rs.feminineReduction);
      }
    }
  }

  /** Without that condition the stemmer can fail: a plural rule that deletes
      the whole of "casa" leaves an empty word whose last character is read
      at index -1. */
  lemma StemCanFail()
    ensures Stem(RuleSet(SuffixTree(map["casa" := Rule(0, "")], 0),
                         SuffixTree(map[], 0), SuffixTree(map[], 0)), "casa")
            == IndexOutOfBounds(-1)
  {
  }

  /** With non-lengthening reduction tables, the stem is never longer than
      the word. */
  lemma StemNeverLonger(rs: RuleSet, word: string)
    requires NonLengthening(rs.pluralReduction) && NonLengthening(rs.feminineReduction)
    ensures Stem(rs, word).Stemmed? ==> |Stem(rs, word).stem| <= |word|
  {
    if |word| > 3 {
      var plural := Reduce(word, rs.pluralReduction);
      ReduceShape(word, rs.pluralReduction);
      ReduceShape(plural, rs.feminineReduction);
    }
  }

  /** The final-vowel table never influences the result. */
  lemma StemIgnoresFinalVowelTable(rs: RuleSet, other: SuffixTree<Rule>, word: string)
    ensures Stem(rs, word) == Stem(rs.(finalVowel := other), word)
  {
  }

  /** When the plural-reduced word is at most six characters long or does
      not end in 'a', the feminine table is not consulted. */
  lemma StemSkipsFeminineTable(rs: RuleSet, other: SuffixTree<Rule>, word: string)
    requires var plural := Reduce(word, rs.pluralReduction);
             !(|plural| - 1 > 5 && plural[|plural| - 1] == 'a')
    ensures Stem(rs, word) == Stem(rs.(feminineReduction := other), word)
  {
  }

  /** A two-rule diminutive table: "inho" for words of more than five
      characters, "o" for words of more than two. */
  const Diminutives := SuffixTree(map["inho" := Rule(4, ""), "o" := Rule(1, "")], 0)

  /** Both "inho" and "o" end "carrinho" and both guards hold: the longer
      suffix wins. */
  lemma LongestMatchExample()
    ensures Reduce("carrinho", Diminutives) == "carr"
  {
    assert LongestCandidate(Diminutives, "carrinho", "inho");
    ReduceAppliesLongestCandidate("carrinho", Diminutives, "inho");
  }

  /** "vinho" ends in "inho" but is too short for its guard, so the shorter
      match "o" applies. */
  lemma GuardFallbackExample()
    ensures Reduce("vinho", Diminutives) == "vinh"
  {
    assert !Candidate(Diminutives, "vinho", "inho");
    assert LongestCandidate(Diminutives, "vinho", "o");
    ReduceAppliesLongestCandidate("vinho", Diminutives, "o");
  }
}
