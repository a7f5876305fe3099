/** `getWordFrequencies` (app.js:62-69): one pass over the tokens, storing
    `result[word] = 1 + (result[word] | 0)`. */
module Frequencies {
  import opened Dicts

  /** The table after the loop has consumed the first `n` tokens. */
  function FrequenciesUpTo(words: seq<string>, n: nat): Dict<nat>
    requires n <= |words|
  {
    if n == 0 then Empty()
    else
      var prev := FrequenciesUpTo(words, n - 1);
      Put(prev, words[n - 1], 1 + Lookup(prev, words[n - 1]))
  }

  function WordFrequencies(words: seq<string>): Dict<nat> {
    FrequenciesUpTo(words, |words|)
  }

  method GetWordFrequencies(words: seq<string>) returns (result: Dict<nat>)
    ensures result == WordFrequencies(words)
  {
    result := Empty();
    var i := 0;
    while i < |words|
      invariant 0 <= i <= |words|
      invariant result == FrequenciesUpTo(words, i)
    {
      var word := words[i];
      FrequenciesStep(words, i + 1);
      result := Put(result, word, 1 + Lookup(result, word));
      i := i + 1;
    }
  }

  lemma {:induction false} FrequenciesStep(words: seq<string>, n: nat)
    requires 0 < n <= |words|
    ensures FrequenciesUpTo(words, n)
      == Put(FrequenciesUpTo(words, n - 1), words[n - 1], 1 + Lookup(FrequenciesUpTo(words, n - 1), words[n - 1]))
  {
  }

  /** Every table the loop builds is a well-formed object. */
  lemma {:induction false} FrequenciesValid(words: seq<string>, n: nat)
    requires n <= |words|
    ensures FrequenciesUpTo(words, n).Valid()
  {
    if n > 0 {
      FrequenciesValid(words, n - 1);
      var prev := FrequenciesUpTo(words, n - 1);
      PutValid(prev, words[n - 1], 1 + Lookup(prev, words[n - 1]));
    }
  }

  /** Index of the first occurrence of `w` in `s`. */
  function FirstIndex(s: seq<string>, w: string): (i: nat)
    requires w in s
    ensures i < |s| && s[i] == w && w !in s[..i]
  {
    if s[0] == w then 0 else 1 + FirstIndex(s[1..], w)
  }

  /** The occurrences of `w` among the first `n` tokens. */
  function Occurrences(words: seq<string>, n: nat, w: string): nat
    requires n <= |words|
  {
    multiset(words[..n])[w]
  }

  lemma {:induction false} OccurrencesStep(words: seq<string>, n: nat, w: string)
    requires 0 < n <= |words|
    ensures Occurrences(words, n, w) == Occurrences(words, n - 1, w) + (if words[n - 1] == w then 1 else 0)
    ensures w in words[..n] <==> w in words[..n - 1] || words[n - 1] == w
  {
    assert words[..n] == words[..n - 1] + [words[n - 1]];
  }

  /** The keys are exactly the distinct tokens seen, and the count stored for
      a word is the number of times it occurs. */
  lemma {:induction false} FrequenciesOccurrences(words: seq<string>, n: nat)
    requires n <= |words|
    ensures forall w :: w in FrequenciesUpTo(words, n).vals <==> w in words[..n]
    ensures forall w :: Lookup(FrequenciesUpTo(words, n), w) == Occurrences(words, n, w)
  {
    if n > 0 {
      FrequenciesOccurrences(words, n - 1);
      forall w ensures (w in FrequenciesUpTo(words, n).vals <==> w in words[..n])
        && Lookup(FrequenciesUpTo(words, n), w) == Occurrences(words, n, w)
      {
        OccurrencesStep(words, n, w);
      }
    }
  }

  lemma {:induction false} FirstIndexOfPrefix(s: seq<string>, n: nat, w: string)
    requires n <= |s| && w in s[..n]
    ensures FirstIndex(s, w) == FirstIndex(s[..n], w)
  {
    if s[0] != w {
      assert s[1..][..n - 1] == s[..n][1..];
      FirstIndexOfPrefix(s[1..], n - 1, w);
    }
  }

  lemma {:induction false} FirstIndexOfFresh(s: seq<string>, n: nat)
    requires n < |s| && s[n] !in s[..n]
    ensures FirstIndex(s, s[n]) == n
  {
    assert s[..n + 1][..n] == s[..n];
    FirstIndexOfPrefix(s, n + 1, s[n]);
  }

  /** The keys are listed in the order of the words' first occurrences. */
  ghost predicate InFirstOccurrenceOrder(words: seq<string>, keys: seq<string>) {
    (forall k :: k in keys ==> k in words) &&
    forall i, j :: 0 <= i < j < |keys| ==> FirstIndex(words, keys[i]) < FirstIndex(words, keys[j])
  }

  lemma {:induction false} FrequenciesOrder(words: seq<string>, n: nat)
    requires n <= |words|
    ensures InFirstOccurrenceOrder(words, FrequenciesUpTo(words, n).keys)
  {
    if n > 0 {
      FrequenciesOrder(words, n - 1);
      FrequenciesOccurrences(words, n - 1);
      FrequenciesValid(words, n - 1);
      FrequenciesStep(words, n);
      OrderStep(words, FrequenciesUpTo(words, n - 1).keys, FrequenciesUpTo(words, n).keys, n);
    }
  }

  /** Appending a word that did not occur among the first `n - 1` tokens
      keeps the order. */
  lemma {:induction false} OrderStep(words: seq<string>, prev: seq<string>, keys: seq<string>, n: nat)
    requires 0 < n <= |words|
    requires forall u :: u in prev ==> u in words[..n - 1]
    requires InFirstOccurrenceOrder(words, prev)
    requires keys == prev || (keys == prev + [words[n - 1]] && words[n - 1] !in words[..n - 1])
    ensures InFirstOccurrenceOrder(words, keys)
  {
    if keys != prev {
      var w := words[n - 1];
      FirstIndexOfFresh(words, n - 1);
      forall k | k in keys ensures k in words {
        if k != w {
          assert k in prev && k in words[..n - 1];
          assert words[FirstIndex(words[..n - 1], k)] == k;
        }
      }
      forall i, j | 0 <= i < j < |keys|
        ensures FirstIndex(words, keys[i]) < FirstIndex(words, keys[j])
      {
        if j == |prev| {
          var a := keys[i];
          assert a == prev[i] && prev[i] in prev;
          assert keys[j] == w;
          FirstIndexOfPrefix(words, n - 1, a);
        } else {
          assert keys[i] == prev[i] && keys[j] == prev[j];
        }
      }
    }
  }

  /** The counts add up to the number of tokens. */
  lemma {:induction false} FrequenciesSum(words: seq<string>, n: nat)
    requires n <= |words|
    ensures Sum(FrequenciesUpTo(words, n)) == n
  {
    if n > 0 {
      var prev := FrequenciesUpTo(words, n - 1);
      var w := words[n - 1];
      var c := 1 + Lookup(prev, w);
      FrequenciesStep(words, n);
      FrequenciesValid(words, n - 1);
      FrequenciesSum(words, n - 1);
      SumPut(prev, w, c);
    }
  }

  /** The keys are exactly the distinct tokens, listed in order of first
      occurrence; the count stored for a word is the number of times it
      occurs (so every stored count is at least 1), and the counts add up to
      the number of tokens. */
  lemma {:induction false} WordFrequenciesCount(words: seq<string>)
    ensures WordFrequencies(words).Valid()
    ensures forall w :: w in WordFrequencies(words).vals <==> w in words
    ensures forall w :: Lookup(WordFrequencies(words), w) == multiset(words)[w]
    ensures forall w :: w in WordFrequencies(words).vals ==> WordFrequencies(words).vals[w] >= 1
    ensures InFirstOccurrenceOrder(words, WordFrequencies(words).keys)
    ensures Sum(WordFrequencies(words)) == |words|
  {
    assert words[..|words|] == words;
    FrequenciesValid(words, |words|);
    FrequenciesOccurrences(words, |words|);
    FrequenciesOrder(words, |words|);
    FrequenciesSum(words, |words|);
    var d := WordFrequencies(words);
    forall w | w in d.vals ensures d.vals[w] >= 1 {
      assert Lookup(d, w) == multiset(words)[w];
    }
  }
}
