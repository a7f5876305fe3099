/** `getEdges` (app.js:83-101): for every pair of adjacent tokens that are
    both among the most frequent words, count the pair in a two-level object
    `result[word1][word2]`; then cut every row down to its
    `relatedWordsLimit` most frequent followers. */
module Edges {
  import opened Dicts
  import opened TopWords

  /** `result[word1][word2]`: how often `word2` directly follows `word1`. */
  type EdgeMap = Dict<Dict<nat>>

  /** The object and every row are well-formed objects. */
  ghost predicate DeepValid(e: EdgeMap) {
    e.Valid() && forall a :: a in e.vals ==> e.vals[a].Valid()
  }

  /** `e[a]` exists and has the own property `b`. */
  predicate Has2(e: EdgeMap, a: string, b: string) {
    a in e.vals && b in e.vals[a].vals
  }

  /** `e[a][b]`, or 0 when either level is missing. */
  function Lookup2(e: EdgeMap, a: string, b: string): nat {
    if a in e.vals then Lookup(e.vals[a], b) else 0
  }

  /** `wordFrequencies[w] > 0`; a missing word reads as `undefined`, which is not `> 0`. */
  predicate InTop(top: Dict<nat>, w: string) {
    Lookup(top, w) > 0
  }

  /** `addConnection(word1, word2)` (app.js:95-100). */
  function AddConnection(result: EdgeMap, word1: string, word2: string): EdgeMap {
    var withRow := if word1 in result.vals then result else Put(result, word1, Empty());
    var row := withRow.vals[word1];
    Put(withRow, word1, Put<nat>(row, word2, 1 + Lookup(row, word2)))
  }

  /** The number of positions `k` with `1 <= k < n`, `words[k - 1] == a` and `words[k] == b`. */
  function PairCount(words: seq<string>, a: string, b: string, n: nat): nat
    requires n <= |words|
  {
    if n < 2 then 0
    else PairCount(words, a, b, n - 1) + (if words[n - 2] == a && words[n - 1] == b then 1 else 0)
  }

  /** The object after the first loop has looked at the first `n` tokens. */
  function RawEdgesUpTo(words: seq<string>, top: Dict<nat>, n: nat): EdgeMap
    requires n <= |words|
  {
    if n < 2 then Empty()
    else
      var prev := RawEdgesUpTo(words, top, n - 1);
      if InTop(top, words[n - 2]) && InTop(top, words[n - 1]) then AddConnection(prev, words[n - 2], words[n - 1])
      else prev
  }

  function RawEdges(words: seq<string>, top: Dict<nat>): EdgeMap {
    RawEdgesUpTo(words, top, |words|)
  }

  /** The object after the second loop has replaced the first `j` rows,
      each by `cut` of itself. */
  function PruneUpTo(raw: EdgeMap, cut: Dict<nat> -> Dict<nat>, j: nat): EdgeMap
    requires raw.Valid() && j <= |raw.keys|
  {
    if j == 0 then raw
    else
      var w := raw.keys[j - 1];
      Put(PruneUpTo(raw, cut, j - 1), w, cut(raw.vals[w]))
  }

  function Prune(raw: EdgeMap, cut: Dict<nat> -> Dict<nat>): EdgeMap
    requires raw.Valid()
  {
    PruneUpTo(raw, cut, |raw.keys|)
  }

  /** `getMostFrequentWords(row, relatedWordsLimit)`, as a function of the row. */
  function RowCut(limit: nat): Dict<nat> -> Dict<nat> {
    row => GetMostFrequentWords(row, limit)
  }

  /** What `getEdges(words, top)` returns with `relatedWordsLimit == limit`. */
  function PrunedEdges(words: seq<string>, top: Dict<nat>, limit: nat): EdgeMap {
    RawEdgesValid(words, top, |words|);
    Prune(RawEdges(words, top), RowCut(limit))
  }

  /** The first loop of `getEdges` (app.js:84-89). */
  method CountPairs(words: seq<string>, wordFrequencies: Dict<nat>) returns (result: EdgeMap)
    ensures result == RawEdges(words, wordFrequencies)
  {
    result := Empty();
    var i := 1;
    while i < |words|
      invariant 1 <= i
      invariant i <= |words| ==> result == RawEdgesUpTo(words, wordFrequencies, i)
      invariant i > |words| ==> words == [] && result == Empty()
    {
      RawEdgesStep(words, wordFrequencies, i + 1);
      if Lookup(wordFrequencies, words[i - 1]) > 0 && Lookup(wordFrequencies, words[i]) > 0 {
        result := AddConnection(result, words[i - 1], words[i]);
      }
      i := i + 1;
    }
  }

  method GetEdges(words: seq<string>, wordFrequencies: Dict<nat>, relatedWordsLimit: nat) returns (result: EdgeMap)
    ensures result == PrunedEdges(words, wordFrequencies, relatedWordsLimit)
  {
    result := CountPairs(words, wordFrequencies);
    ghost var raw := result;
    RawEdgesValid(words, wordFrequencies, |words|);
    var keys := result.keys;
    var j := 0;
    while j < |keys|
      invariant j <= |keys| == |raw.keys| && keys == raw.keys
      invariant result == PruneUpTo(raw, RowCut(relatedWordsLimit), j)
    {
      var word := keys[j];
      PruneValue(raw, RowCut(relatedWordsLimit), j, j);
      PruneStep(raw, RowCut(relatedWordsLimit), j + 1);
      result := Put(result, word, GetMostFrequentWords(result.vals[word], relatedWordsLimit));
      j := j + 1;
    }
  }

  // ---------------------------------------------------------------------
  // One connection.

  /** `e[w]`, or `{}` when the row is missing. */
  function RowOf(e: EdgeMap, w: string): Dict<nat> {
    if w in e.vals then e.vals[w] else Empty()
  }

  /** `addConnection` replaces the row of `word1`, creating it after all
      existing rows when it is missing. */
  lemma {:induction false} AddConnectionShape(e: EdgeMap, word1: string, word2: string)
    ensures AddConnection(e, word1, word2).keys == if word1 in e.vals then e.keys else e.keys + [word1]
    ensures AddConnection(e, word1, word2).vals
      == e.vals[word1 := Put(RowOf(e, word1), word2, 1 + Lookup(RowOf(e, word1), word2))]
  {
    var withRow := if word1 in e.vals then e else Put(e, word1, Empty());
    assert withRow.vals[word1] == RowOf(e, word1);
    assert withRow.keys == if word1 in e.vals then e.keys else e.keys + [word1];
    assert withRow.vals.Keys == e.vals.Keys + {word1};
  }

  /** `addConnection` keeps the object and every row well-formed. */
  lemma {:induction false} AddConnectionValid(e: EdgeMap, word1: string, word2: string)
    requires DeepValid(e)
    ensures DeepValid(AddConnection(e, word1, word2))
  {
    AddConnectionShape(e, word1, word2);
    var row := RowOf(e, word1);
    var newRow := Put<nat>(row, word2, 1 + Lookup(row, word2));
    var r := AddConnection(e, word1, word2);
    PutValid<nat>(row, word2, 1 + Lookup(row, word2));
    PutValid(e, word1, newRow);
    assert r == Put(e, word1, newRow);
    forall a | a in r.vals ensures r.vals[a].Valid() {
      if a != word1 {
        assert r.vals[a] == e.vals[a];
      }
    }
  }

  lemma {:induction false} AddConnectionAt(e: EdgeMap, word1: string, word2: string, a: string, b: string)
    ensures Lookup2(AddConnection(e, word1, word2), a, b) == Lookup2(e, a, b) + (if a == word1 && b == word2 then 1 else 0)
    ensures Has2(AddConnection(e, word1, word2), a, b) <==> Has2(e, a, b) || (a == word1 && b == word2)
  {
    AddConnectionShape(e, word1, word2);
    var r := AddConnection(e, word1, word2);
    if a == word1 {
      var row := RowOf(e, word1);
      assert r.vals[a] == Put(row, word2, 1 + Lookup(row, word2));
      assert Lookup2(e, a, b) == Lookup(row, b);
      assert Has2(e, a, b) <==> b in row.vals;
    } else {
      assert a in r.vals <==> a in e.vals;
      if a in e.vals {
        assert r.vals[a] == e.vals[a];
      }
    }
  }

  /** `addConnection(word1, word2)` adds one to `result[word1][word2]` and
      nothing else; the row of `word1` is created (after all existing rows)
      when missing, and every object stays well-formed. */
  lemma {:induction false} AddConnectionEffect(e: EdgeMap, word1: string, word2: string)
    requires DeepValid(e)
    ensures DeepValid(AddConnection(e, word1, word2))
    ensures AddConnection(e, word1, word2).keys == if word1 in e.vals then e.keys else e.keys + [word1]
    ensures forall a, b ::
      Lookup2(AddConnection(e, word1, word2), a, b) == Lookup2(e, a, b) + (if a == word1 && b == word2 then 1 else 0)
    ensures forall a, b :: Has2(AddConnection(e, word1, word2), a, b) <==> Has2(e, a, b) || (a == word1 && b == word2)
  {
    AddConnectionValid(e, word1, word2);
    AddConnectionShape(e, word1, word2);
    forall a, b ensures
      && Lookup2(AddConnection(e, word1, word2), a, b) == Lookup2(e, a, b) + (if a == word1 && b == word2 then 1 else 0)
      && (Has2(AddConnection(e, word1, word2), a, b) <==> Has2(e, a, b) || (a == word1 && b == word2))
    {
      AddConnectionAt(e, word1, word2, a, b);
    }
  }

  lemma {:induction false} RawEdgesStep(words: seq<string>, top: Dict<nat>, n: nat)
    requires 2 <= n <= |words|
    ensures RawEdgesUpTo(words, top, n) ==
      if InTop(top, words[n - 2]) && InTop(top, words[n - 1])
      then AddConnection(RawEdgesUpTo(words, top, n - 1), words[n - 2], words[n - 1])
      else RawEdgesUpTo(words, top, n - 1)
  {
  }

  // ---------------------------------------------------------------------
  // The first loop.

  /** Every row is non-empty and every stored count is at least 1. */
  ghost predicate Positive(e: EdgeMap) {
    forall a :: a in e.vals ==> e.vals[a].keys != [] && forall b :: b in e.vals[a].vals ==> e.vals[a].vals[b] >= 1
  }

  lemma {:induction false} RawEdgesValid(words: seq<string>, top: Dict<nat>, n: nat)
    requires n <= |words|
    ensures DeepValid(RawEdgesUpTo(words, top, n))
    ensures Positive(RawEdgesUpTo(words, top, n))
  {
    if n >= 2 {
      RawEdgesValid(words, top, n - 1);
      RawEdgesStep(words, top, n);
      var prev := RawEdgesUpTo(words, top, n - 1);
      if InTop(top, words[n - 2]) && InTop(top, words[n - 1]) {
        AddPositive(prev, words[n - 2], words[n - 1]);
      }
    }
  }

  lemma {:induction false} AddPositive(e: EdgeMap, word1: string, word2: string)
    requires DeepValid(e) && Positive(e)
    ensures DeepValid(AddConnection(e, word1, word2)) && Positive(AddConnection(e, word1, word2))
  {
    AddConnectionValid(e, word1, word2);
    var r := AddConnection(e, word1, word2);
    forall a | a in r.vals
      ensures r.vals[a].keys != [] && forall b :: b in r.vals[a].vals ==> r.vals[a].vals[b] >= 1
    {
      forall b | b in r.vals[a].vals ensures r.vals[a].vals[b] >= 1 {
        AddConnectionAt(e, word1, word2, a, b);
        if Has2(e, a, b) {
          assert Lookup2(e, a, b) == e.vals[a].vals[b];
        }
      }
      var b := if a == word1 then word2 else e.vals[a].keys[0];
      AddConnectionAt(e, word1, word2, a, b);
      assert Has2(r, a, b);
    }
  }

  /** The stored count of a pair is the number of times the pair occurs in
      the token list when both words are among the most frequent, and 0
      (absent) otherwise. */
  lemma {:induction false} RawEdgesCount(words: seq<string>, top: Dict<nat>, n: nat)
    requires n <= |words|
    ensures forall a, b ::
      Lookup2(RawEdgesUpTo(words, top, n), a, b) == if InTop(top, a) && InTop(top, b) then PairCount(words, a, b, n) else 0
  {
    if n >= 2 {
      RawEdgesCount(words, top, n - 1);
      RawEdgesValid(words, top, n - 1);
      RawEdgesStep(words, top, n);
      var prev := RawEdgesUpTo(words, top, n - 1);
      var x, y := words[n - 2], words[n - 1];
      if InTop(top, x) && InTop(top, y) {
        AddConnectionEffect(prev, x, y);
      }
    }
  }

  // ---------------------------------------------------------------------
  // The second loop.

  lemma {:induction false} PruneStep(raw: EdgeMap, cut: Dict<nat> -> Dict<nat>, j: nat)
    requires raw.Valid() && 0 < j <= |raw.keys|
    ensures PruneUpTo(raw, cut, j) == Put(PruneUpTo(raw, cut, j - 1), raw.keys[j - 1], cut(raw.vals[raw.keys[j - 1]]))
  {
  }

  /** Replacing rows keeps the keys and their order. */
  lemma {:induction false} PruneKeys(raw: EdgeMap, cut: Dict<nat> -> Dict<nat>, j: nat)
    requires raw.Valid() && j <= |raw.keys|
    ensures PruneUpTo(raw, cut, j).keys == raw.keys
    ensures PruneUpTo(raw, cut, j).vals.Keys == raw.vals.Keys
  {
    if j > 0 {
      PruneKeys(raw, cut, j - 1);
      PruneStep(raw, cut, j);
      assert raw.keys[j - 1] in raw.vals;
    }
  }

  /** After `j` rows were replaced, the rows before `j` are cut down and the
      rows from `j` on are untouched. */
  lemma {:induction false} PruneValue(raw: EdgeMap, cut: Dict<nat> -> Dict<nat>, j: nat, k: nat)
    requires raw.Valid() && j <= |raw.keys| && k < |raw.keys|
    ensures raw.keys[k] in PruneUpTo(raw, cut, j).vals
    ensures PruneUpTo(raw, cut, j).vals[raw.keys[k]] == if k < j then cut(raw.vals[raw.keys[k]]) else raw.vals[raw.keys[k]]
  {
    if j > 0 {
      PruneValue(raw, cut, j - 1, k);
      PruneStep(raw, cut, j);
      var prev := PruneUpTo(raw, cut, j - 1);
      var w := raw.keys[j - 1];
      assert PruneUpTo(raw, cut, j).vals == prev.vals[w := cut(raw.vals[w])];
      if k != j - 1 {
        assert raw.keys[k] != w;
      }
    }
  }

  /** Pruning keeps the rows and their order and replaces every row by its
      most frequent entries. */
  lemma {:induction false} PruneRows(raw: EdgeMap, limit: nat)
    requires DeepValid(raw)
    ensures DeepValid(Prune(raw, RowCut(limit)))
    ensures Prune(raw, RowCut(limit)).keys == raw.keys
    ensures forall a :: a in Prune(raw, RowCut(limit)).vals <==> a in raw.vals
    ensures forall a :: a in raw.vals ==> Prune(raw, RowCut(limit)).vals[a] == GetMostFrequentWords(raw.vals[a], limit)
  {
    var cut := RowCut(limit);
    PruneKeys(raw, cut, |raw.keys|);
    var p := Prune(raw, cut);
    forall a | a in raw.vals ensures p.vals[a] == GetMostFrequentWords(raw.vals[a], limit) {
      var k :| 0 <= k < |raw.keys| && raw.keys[k] == a;
      PruneValue(raw, cut, |raw.keys|, k);
    }
  }

  // ---------------------------------------------------------------------
  // The result.

  /** A pair is stored in the counted object exactly when both words are
      among the most frequent and the pair occurs, and then with its number
      of occurrences. */
  lemma {:induction false} RawPairAt(words: seq<string>, top: Dict<nat>, a: string, b: string)
    ensures Has2(RawEdges(words, top), a, b) <==> InTop(top, a) && InTop(top, b) && PairCount(words, a, b, |words|) > 0
    ensures Has2(RawEdges(words, top), a, b) ==> RawEdges(words, top).vals[a].vals[b] == PairCount(words, a, b, |words|)
  {
    var raw := RawEdges(words, top);
    RawEdgesValid(words, top, |words|);
    RawEdgesCount(words, top, |words|);
    assert Lookup2(raw, a, b) == if InTop(top, a) && InTop(top, b) then PairCount(words, a, b, |words|) else 0;
    if a in raw.vals && b in raw.vals[a].vals {
      assert raw.vals[a].vals[b] >= 1;
    }
  }

  /** The result has the rows of the counted object, in the same order,
      each non-empty and well-formed. */
  lemma {:induction false} EdgesShape(words: seq<string>, top: Dict<nat>, limit: nat)
    ensures DeepValid(PrunedEdges(words, top, limit))
    ensures PrunedEdges(words, top, limit).keys == RawEdges(words, top).keys
    ensures forall a :: a in PrunedEdges(words, top, limit).vals <==> a in RawEdges(words, top).vals
    ensures forall a :: a in PrunedEdges(words, top, limit).vals ==> PrunedEdges(words, top, limit).vals[a].keys != []
  {
    var raw := RawEdges(words, top);
    var e := PrunedEdges(words, top, limit);
    RawEdgesValid(words, top, |words|);
    PruneRows(raw, limit);
    forall a | a in e.vals ensures e.vals[a].keys != [] {
      TopWordsSize(raw.vals[a], limit);
    }
  }

  /** A pair kept in the result is a counted pair of two frequent words,
      with its number of occurrences. */
  lemma {:induction false} EdgePairAt(words: seq<string>, top: Dict<nat>, limit: nat, a: string, b: string)
    requires Has2(PrunedEdges(words, top, limit), a, b)
    ensures Has2(RawEdges(words, top), a, b)
    ensures InTop(top, a) && InTop(top, b)
    ensures PrunedEdges(words, top, limit).vals[a].vals[b] == PairCount(words, a, b, |words|) > 0
  {
    var raw := RawEdges(words, top);
    RawEdgesValid(words, top, |words|);
    PruneRows(raw, limit);
    SubmapStep(raw.vals[a], limit, b);
    RawPairAt(words, top, a, b);
  }

  /** The outer keys are the words that start a counted pair, in the order
      in which they were first seen; a pair is stored only if both words are
      among the most frequent and it occurs, and then with its number of
      occurrences; no row is empty. */
  lemma {:induction false} EdgesCounts(words: seq<string>, top: Dict<nat>, limit: nat)
    ensures DeepValid(PrunedEdges(words, top, limit))
    ensures PrunedEdges(words, top, limit).keys == RawEdges(words, top).keys
    ensures forall a :: a in PrunedEdges(words, top, limit).vals ==> PrunedEdges(words, top, limit).vals[a].keys != []
    ensures forall a, b :: Has2(PrunedEdges(words, top, limit), a, b) ==>
      InTop(top, a) && InTop(top, b) && PrunedEdges(words, top, limit).vals[a].vals[b] == PairCount(words, a, b, |words|) > 0
    ensures forall a :: a in PrunedEdges(words, top, limit).vals <==> a in RawEdges(words, top).vals
    ensures forall a, b :: Has2(RawEdges(words, top), a, b) <==>
      InTop(top, a) && InTop(top, b) && PairCount(words, a, b, |words|) > 0
  {
    EdgesShape(words, top, limit);
    forall a, b | Has2(PrunedEdges(words, top, limit), a, b)
      ensures InTop(top, a) && InTop(top, b) && PrunedEdges(words, top, limit).vals[a].vals[b] == PairCount(words, a, b, |words|) > 0
    {
      EdgePairAt(words, top, limit, a, b);
    }
    forall a, b ensures Has2(RawEdges(words, top), a, b) <==> InTop(top, a) && InTop(top, b) && PairCount(words, a, b, |words|) > 0 {
      RawPairAt(words, top, a, b);
    }
  }

  /** A word has a row exactly when it is among the most frequent and is
      directly followed, at least once, by a word that is too. */
  lemma {:induction false} EdgesOuterKeys(words: seq<string>, top: Dict<nat>, limit: nat)
    ensures forall a :: a in PrunedEdges(words, top, limit).vals ==>
      InTop(top, a) && exists b :: InTop(top, b) && PairCount(words, a, b, |words|) > 0
    ensures forall a, b :: InTop(top, a) && InTop(top, b) && PairCount(words, a, b, |words|) > 0 ==>
      a in PrunedEdges(words, top, limit).vals
  {
    var e := PrunedEdges(words, top, limit);
    EdgesShape(words, top, limit);
    forall a | a in e.vals ensures InTop(top, a) && exists b :: InTop(top, b) && PairCount(words, a, b, |words|) > 0 {
      var b := e.vals[a].keys[0];
      assert b in e.vals[a].vals;
      EdgePairAt(words, top, limit, a, b);
    }
    forall a, b | InTop(top, a) && InTop(top, b) && PairCount(words, a, b, |words|) > 0
      ensures a in e.vals
    {
      RawPairAt(words, top, a, b);
    }
  }

  /** With a limit of at least 1 a row keeps at most `limit` followers; with
      a limit of 0, or when a row has no more than `limit` entries, the row is
      kept whole. */
  lemma {:induction false} EdgesRowSize(words: seq<string>, top: Dict<nat>, limit: nat, a: string)
    requires a in PrunedEdges(words, top, limit).vals
    ensures limit >= 1 ==> |PrunedEdges(words, top, limit).vals[a].keys| <= limit
    ensures a in RawEdges(words, top).vals
    ensures limit == 0 || |RawEdges(words, top).vals[a].keys| <= limit ==>
      PrunedEdges(words, top, limit).vals[a].vals == RawEdges(words, top).vals[a].vals
  {
    var raw := RawEdges(words, top);
    RawEdgesValid(words, top, |words|);
    PruneRows(raw, limit);
    TopWordsSize(raw.vals[a], limit);
    if limit == 0 || |raw.vals[a].keys| <= limit {
      TopWordsWhole(raw.vals[a], limit);
    }
  }

  /** A follower kept in a row occurs at least as often after the row's word
      as any follower that was cut off. */
  lemma {:induction false} EdgesRowByCount(words: seq<string>, top: Dict<nat>, limit: nat, a: string, b: string, d: string)
    requires Has2(PrunedEdges(words, top, limit), a, b)
    requires Has2(RawEdges(words, top), a, d) && !Has2(PrunedEdges(words, top, limit), a, d)
    ensures PairCount(words, a, d, |words|) <= PairCount(words, a, b, |words|)
  {
    var raw := RawEdges(words, top);
    RawEdgesValid(words, top, |words|);
    PruneRows(raw, limit);
    EdgePairAt(words, top, limit, a, b);
    RawPairAt(words, top, a, d);
    ByCountStep(raw.vals[a], limit, b, d);
    SubmapStep(raw.vals[a], limit, b);
  }
}
