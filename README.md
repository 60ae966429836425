# Savoy light stemmer for Portuguese, modelled in Dafny

This project models the core of `SavoyStemmer` from PTStemmer. The stemmer
implements J. Savoy's light-stemming algorithm for Portuguese (Proceedings of
the 2006 ACM Symposium on Applied Computing, pp. 1031-1035). A word goes
through three steps:

1. plural reduction by a suffix-rule table;
2. feminine reduction by a second table, only for words of more than six
   characters that end in `a`;
3. removal of one final `a`, `e` or `o` from words of more than four
   characters.

Words of at most three characters are returned unchanged.

A rule table is a `SuffixTree<Rule>`. Its observable behaviour is modelled
in `suffix_trees.dfy`. It is a map from suffix to value plus the integer
property `"size"` (`minSize`, default 0). The query
`LongestSuffixesAndValues` returns every registered suffix of a word, with
its value, in strictly ascending length order.

`savoy_stemmer.dfy` holds the stemmer itself:

- `Reduce` specifies `applyRules`. The method `ApplyRules` keeps the
  source's descending index loop with its early return and is proved equal
  to `Reduce`.
- `Stem` specifies `algorithm`. The method `Algorithm` follows the source
  statement by statement and is proved equal to `Stem`. `stemming` only
  calls `algorithm`, so it has no separate member.
- Together with `Reduce`'s own clause for words below the table's minimum
  size (lines 93-96), `ReduceAppliesLongestCandidate`,
  `ReduceWithoutCandidate` and `LongestCandidateExists` pin down `Reduce`
  on every input. At or above that size, the rule applied is always the
  one for the longest registered suffix whose guard `|word| - 1 > size`
  holds. That guard is evaluated on the original word. If no such suffix
  exists, the word comes back unchanged.
  `ReduceShape` adds that a suffix the word does not end with is never
  applied.

The result of the stemmer is an `Outcome`. Line 80 of the source reads the character at
`word.length() - 1` without checking that the word is non-empty. A reduction
rule that rewrites the whole word to the empty string therefore makes Java
throw `StringIndexOutOfBoundsException`. The model returns
`IndexOutOfBounds(-1)` in that case:

- `StemCanFail` exhibits such a table and word.
- `StemTotal` proves that the stemmer always returns a stem when no rule
  can empty a word (`NeverEmpties`).

One might expect the stemmer to be total and never to lengthen a word. The
code guarantees neither for arbitrary tables. `StemTotal` and
`StemNeverLonger` prove each under the table condition that makes it true.

## Model

| member | source | states |
|---|---|---|
| SuffixTrees.LongestSuffixesAndValues | src/ptstemmer/implementations/SavoyStemmer.java:98-100 | every element is a registered suffix of the word paired with its value, and lengths strictly ascend, so scanning from the end meets the longest match first |
| SavoyStemmer.Replace | src/ptstemmer/implementations/SavoyStemmer.java:106 | the rewritten word keeps the prefix before the suffix intact and ends with the replacement |
| SavoyStemmer.Reduce | src/ptstemmer/implementations/SavoyStemmer.java:92-110 | a word whose length minus one is below the table's minimum size is returned unchanged; the rest of applyRules is stated by the lemmas below |
| SavoyStemmer.ScanFromLongest | src/ptstemmer/implementations/SavoyStemmer.java:100-109 | an empty match list leaves the word unchanged; when the guard of the last (longest) entry holds, that entry's rewrite is the result |
| SavoyStemmer.ScanShape | src/ptstemmer/implementations/SavoyStemmer.java:100-109 | the scan returns the word unchanged or the rewrite by some list entry whose guard holds |
| SavoyStemmer.ReduceShape | src/ptstemmer/implementations/SavoyStemmer.java:98-109 | a non-matching suffix is never applied: any change replaces a registered suffix of the word, whose guard holds on the original word, by its replacement |
| SuffixTrees.LongestSuffixesComplete | src/ptstemmer/implementations/SavoyStemmer.java:98 | every registered suffix of the word occurs in the match list |
| SavoyStemmer.LocateLongestCandidate | src/ptstemmer/implementations/SavoyStemmer.java:100-107 | the longest candidate occurs in the match list, and every later (longer) entry fails its guard |
| SavoyStemmer.ScanPicks | src/ptstemmer/implementations/SavoyStemmer.java:100-107 | the scan applies the highest-index entry whose guard holds |
| SavoyStemmer.ScanNone | src/ptstemmer/implementations/SavoyStemmer.java:100-109 | when no entry's guard holds, the scan returns the word unchanged |
| SavoyStemmer.ScanStep | src/ptstemmer/implementations/SavoyStemmer.java:100-107 | one loop iteration: apply entry i if its guard holds, otherwise continue below it |
| SavoyStemmer.ReduceAppliesLongestCandidate | src/ptstemmer/implementations/SavoyStemmer.java:93-107 | at or above the minimum size, the rule applied belongs to the longest registered suffix whose guard holds, even when longer matches fail their guards and shorter ones pass |
| SavoyStemmer.ReduceWithoutCandidate | src/ptstemmer/implementations/SavoyStemmer.java:93-109 | when no registered suffix of the word passes its guard, which uses the original word's length, the word is returned unchanged |
| SavoyStemmer.LongestCandidateExists | src/ptstemmer/implementations/SavoyStemmer.java:100-107 | whenever some registered suffix passes its guard, a longest such suffix exists, so with `Reduce`'s minimum-size clause the two lemmas above cover every input |
| SavoyStemmer.LongestCandidateAtMost | src/ptstemmer/implementations/SavoyStemmer.java:100-107 | if every candidate has length at most k, a longest candidate exists (the search from length k downwards) |
| SavoyStemmer.ApplyRules | src/ptstemmer/implementations/SavoyStemmer.java:92-110 | the descending index loop with early return computes exactly Reduce |
| SavoyStemmer.FinalVowelTrim | src/ptstemmer/implementations/SavoyStemmer.java:79-87 | an empty word fails at index -1; otherwise the result is a prefix of the word at most one character shorter, and it is shorter exactly when the word has more than four characters and ends in a, e or o |
| SavoyStemmer.FeminineStep | src/ptstemmer/implementations/SavoyStemmer.java:74-77 | a word of at most six characters, or one not ending in 'a', passes unchanged; any other word is reduced by the feminine table |
| SavoyStemmer.Stem | src/ptstemmer/implementations/SavoyStemmer.java:69-90 | words of at most three characters are returned unchanged; a failure happens only at index -1 and only for longer words |
| SavoyStemmer.Algorithm | src/ptstemmer/implementations/SavoyStemmer.java:69-90 | the source's statement sequence, with both calls to the applyRules loop, computes exactly Stem |
| SavoyStemmer.ReduceKeepsNonEmpty | src/ptstemmer/implementations/SavoyStemmer.java:92-110 | under a table in which no rule can delete a whole word, applyRules keeps a non-empty word non-empty |
| SavoyStemmer.StemTotal | src/ptstemmer/implementations/SavoyStemmer.java:73-80 | when neither reduction table can delete a whole word, the read of the last character never fails |
| SavoyStemmer.StemCanFail | src/ptstemmer/implementations/SavoyStemmer.java:73-80 | a plural rule that deletes all of "casa" makes the read of the last character fail at index -1 |
| SavoyStemmer.StemNeverLonger | src/ptstemmer/implementations/SavoyStemmer.java:73-82 | with non-lengthening reduction tables, the stem is never longer than the word |
| SavoyStemmer.StemIgnoresFinalVowelTable | src/ptstemmer/implementations/SavoyStemmer.java:79-87 | replacing the final-vowel table never changes the result |
| SavoyStemmer.StemSkipsFeminineTable | src/ptstemmer/implementations/SavoyStemmer.java:74-77 | when the plural-reduced word has at most six characters or does not end in 'a', replacing the feminine table never changes the result |
| SavoyStemmer.LongestMatchExample | src/ptstemmer/implementations/SavoyStemmer.java:100-106 | with rules for "inho" and "o" whose guards both hold on "carrinho", the longer suffix wins |
| SavoyStemmer.GuardFallbackExample | src/ptstemmer/implementations/SavoyStemmer.java:100-107 | on "vinho" the "inho" guard fails and the shorter match "o" is applied |

## Left out

- Loading of the rule file (`parseXML`, lines 112-163) is left out. This covers XML parsing, resource loading, the `Integer.parseInt` error wrapping and `PTStemmerException`, all of which are I/O or foreign library calls. `RuleSet` stands for the result of a successful load: the three tables exist.
- The internals of `SuffixTree` are left out: its trie layout, `addSuffix` and its property bag. Only the observable query contract is modelled. If the empty string were a key, it would count as a suffix of every word. The real tree's behaviour in that case is not part of this model.
- The `Stemmer` base class is left out: caching and the public `stem` wrapper. `stemming` (lines 165-168) only delegates to `algorithm`, which `Algorithm` models.
- The commented-out `finalvowel` rule application and `removeDiacritics` (lines 83-86) are dead code and are not modelled.
- Characters are Dafny `char`, not Java UTF-16 code units. No normalisation or case folding happens in the source either.
- Lengths and rule sizes are unbounded integers. Java's 32-bit `int` cannot overflow here, because lengths stay below the maximum string size.
