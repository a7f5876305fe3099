/** `getMostFrequentWords` (app.js:71-81): turn the table into
    `{word, count}` records, sort them ascending by count with a stable sort,
    keep the last `limit` of them (`slice(-limit)`) and fold them back into an
    object. */
module TopWords {
  import opened Dicts

  datatype Entry = Entry(word: string, count: nat)

  /** `Object.keys(frequencies).map(d => ({word: d, count: frequencies[d]}))`. */
  function Entries(d: Dict<nat>): seq<Entry> {
    seq(|d.keys|, i requires 0 <= i < |d.keys| => Entry(d.keys[i], Lookup(d, d.keys[i])))
  }

  ghost predicate DistinctWords(s: seq<Entry>) {
    forall i, j :: 0 <= i < j < |s| ==> s[i].word != s[j].word
  }

  ghost predicate SortedByCount(s: seq<Entry>) {
    forall i, j :: 0 <= i < j < |s| ==> s[i].count <= s[j].count
  }

  /** Places `e` before the first entry whose count is at least its own, so
      that `e` stays ahead of every later entry with the same count. */
  function Insert(e: Entry, s: seq<Entry>): seq<Entry> {
    if s == [] then [e]
    else if e.count <= s[0].count then [e] + s
    else [s[0]] + Insert(e, s[1..])
  }

  /** `sort((a, b) => a.count - b.count)`: a stable ascending sort by count. */
  function SortByCount(s: seq<Entry>): seq<Entry> {
    if s == [] then []
    else Insert(s[0], SortByCount(s[1..]))
  }

  /** Index at which `slice(-limit)` starts: `slice(-0)` is `slice(0)`, and a
      limit beyond the length keeps everything. */
  function SliceStart(n: nat, limit: nat): nat {
    if limit == 0 || limit >= n then 0 else n - limit
  }

  /** `reduce((acc, d) => { acc[d.word] = d.count; return acc; }, {})`. */
  function Collect(s: seq<Entry>): (d: Dict<nat>)
    ensures d.Valid()
  {
    if s == [] then Empty()
    else
      var acc := Collect(s[..|s| - 1]);
      PutValid(acc, s[|s| - 1].word, s[|s| - 1].count);
      Put(acc, s[|s| - 1].word, s[|s| - 1].count)
  }

  /** The words of the records, in order. */
  function Words(s: seq<Entry>): seq<string> {
    seq(|s|, i requires 0 <= i < |s| => s[i].word)
  }

  function SortedEntries(frequencies: Dict<nat>): seq<Entry>
  {
    SortByCount(Entries(frequencies))
  }

  /** `slice(-limit)` of the sorted records. */
  function KeptEntries(frequencies: Dict<nat>, limit: nat): seq<Entry>
  {
    var sorted := SortedEntries(frequencies);
    sorted[SliceStart(|sorted|, limit)..]
  }

  function GetMostFrequentWords(frequencies: Dict<nat>, limit: nat): (r: Dict<nat>)
    ensures r.Valid()
  {
    Collect(KeptEntries(frequencies, limit))
  }

  // ---------------------------------------------------------------------
  // The sort: sorted, a permutation, stable.

  lemma {:induction false} InsertPermutation(e: Entry, s: seq<Entry>)
    ensures multiset(Insert(e, s)) == multiset(s) + multiset{e}
  {
    if s != [] && e.count > s[0].count {
      InsertPermutation(e, s[1..]);
      assert s == [s[0]] + s[1..];
    }
  }

  lemma {:induction false} SortPermutation(s: seq<Entry>)
    ensures multiset(SortByCount(s)) == multiset(s)
  {
    if s != [] {
      SortPermutation(s[1..]);
      InsertPermutation(s[0], SortByCount(s[1..]));
      assert s == [s[0]] + s[1..];
    }
  }

  lemma {:induction false} InsertSorted(e: Entry, s: seq<Entry>)
    requires SortedByCount(s)
    ensures SortedByCount(Insert(e, s))
  {
    if s != [] && e.count > s[0].count {
      InsertSorted(e, s[1..]);
      InsertPermutation(e, s[1..]);
      var r := Insert(e, s);
      assert r == [s[0]] + Insert(e, s[1..]);
      forall x | x in Insert(e, s[1..]) ensures s[0].count <= x.count {
        assert x in multiset(Insert(e, s[1..]));
        assert x == e || x in multiset(s[1..]);
      }
    }
  }

  lemma {:induction false} SortSorted(s: seq<Entry>)
    ensures SortedByCount(SortByCount(s))
  {
    if s != [] {
      SortSorted(s[1..]);
      InsertSorted(s[0], SortByCount(s[1..]));
    }
  }

  lemma {:induction false} InsertDistinct(e: Entry, s: seq<Entry>)
    requires DistinctWords(s)
    requires forall x :: x in s ==> x.word != e.word
    ensures DistinctWords(Insert(e, s))
  {
    if s != [] && e.count > s[0].count {
      InsertDistinct(e, s[1..]);
      InsertPermutation(e, s[1..]);
      forall x | x in Insert(e, s[1..]) ensures x.word != s[0].word {
        assert x in multiset(Insert(e, s[1..]));
        assert x == e || x in multiset(s[1..]);
      }
    }
  }

  lemma {:induction false} SortDistinct(s: seq<Entry>)
    requires DistinctWords(s)
    ensures DistinctWords(SortByCount(s))
  {
    if s != [] {
      SortDistinct(s[1..]);
      SortPermutation(s[1..]);
      forall x | x in SortByCount(s[1..]) ensures x.word != s[0].word {
        assert x in multiset(SortByCount(s[1..]));
      }
      InsertDistinct(s[0], SortByCount(s[1..]));
    }
  }

  /** The entries of `s` with count `c`, in their order in `s`. */
  function WithCount(s: seq<Entry>, c: nat): seq<Entry> {
    if s == [] then []
    else (if s[0].count == c then [s[0]] else []) + WithCount(s[1..], c)
  }

  lemma {:induction false} InsertWithCount(e: Entry, s: seq<Entry>, c: nat)
    ensures WithCount(Insert(e, s), c) == if e.count == c then [e] + WithCount(s, c) else WithCount(s, c)
  {
    var r := Insert(e, s);
    if s == [] {
      assert r == [e] && r[1..] == [];
    } else if e.count <= s[0].count {
      assert r == [e] + s && r[1..] == s;
    } else {
      var rest := Insert(e, s[1..]);
      assert r == [s[0]] + rest && r[1..] == rest;
      InsertWithCount(e, s[1..], c);
      assert WithCount(s, c) == (if s[0].count == c then [s[0]] else []) + WithCount(s[1..], c);
    }
  }

  /** Stability: among entries of equal count the sort keeps the input order. */
  lemma {:induction false} SortStable(s: seq<Entry>, c: nat)
    ensures WithCount(SortByCount(s), c) == WithCount(s, c)
  {
    if s != [] {
      SortStable(s[1..], c);
      InsertWithCount(s[0], SortByCount(s[1..]), c);
    }
  }

  function IndexOf(s: seq<Entry>, x: Entry): (i: nat)
    requires x in s
    ensures i < |s| && s[i] == x
  {
    if s[0] == x then 0 else 1 + IndexOf(s[1..], x)
  }

  lemma IndexOfDistinct(s: seq<Entry>, p: nat)
    requires DistinctWords(s) && p < |s|
    ensures IndexOf(s, s[p]) == p
  {
  }

  lemma {:induction false} WithCountMember(s: seq<Entry>, c: nat, x: Entry)
    requires x in s && x.count == c
    ensures x in WithCount(s, c)
  {
    if s[0] != x {
      WithCountMember(s[1..], c, x);
    }
  }

  lemma {:induction false} IndexOfTail(s: seq<Entry>, x: Entry)
    requires x in s && s[0] != x
    ensures x in s[1..] && IndexOf(s, x) == 1 + IndexOf(s[1..], x)
  {
  }

  /** Keeping only the entries of one count keeps their relative order. */
  lemma {:induction false} WithCountOrder(s: seq<Entry>, c: nat, x: Entry, y: Entry)
    requires x in s && y in s && x.count == c && y.count == c && x != y
    requires IndexOf(s, x) < IndexOf(s, y)
    ensures x in WithCount(s, c) && y in WithCount(s, c)
    ensures IndexOf(WithCount(s, c), x) < IndexOf(WithCount(s, c), y)
  {
    WithCountMember(s, c, x);
    WithCountMember(s, c, y);
    var w := WithCount(s, c);
    var t := s[1..];
    if s[0] == x {
      assert w[0] == x;
    } else {
      IndexOfTail(s, x);
      assert s[0] != y;
      IndexOfTail(s, y);
      WithCountOrder(t, c, x, y);
      var wt := WithCount(t, c);
      if s[0].count == c {
        assert w == [s[0]] + wt;
        assert w[1..] == wt;
        IndexOfTail(w, x);
        IndexOfTail(w, y);
      } else {
        assert w == wt;
      }
    }
  }

  // ---------------------------------------------------------------------
  // The fold back into an object.

  lemma {:induction false} CollectDistinct(s: seq<Entry>)
    requires DistinctWords(s)
    ensures Collect(s).keys == Words(s)
    ensures forall i :: 0 <= i < |s| ==> s[i].word in Collect(s).vals && Collect(s).vals[s[i].word] == s[i].count
  {
    if s != [] {
      var init, last := s[..|s| - 1], s[|s| - 1];
      assert DistinctWords(init) by {
        forall i, j | 0 <= i < j < |init| ensures init[i].word != init[j].word {
          assert init[i] == s[i] && init[j] == s[j];
        }
      }
      CollectDistinct(init);
      assert last.word !in Words(init) by {
        forall j | 0 <= j < |init| ensures Words(init)[j] != last.word {
          assert init[j] == s[j];
        }
      }
      assert s == init + [last];
      CollectStep(init, last);
    }
  }

  /** Appending a record with a new word to a list the fold already
      collects correctly. */
  lemma CollectStep(init: seq<Entry>, last: Entry)
    requires Collect(init).keys == Words(init)
    requires forall i :: 0 <= i < |init| ==> init[i].word in Collect(init).vals && Collect(init).vals[init[i].word] == init[i].count
    requires last.word !in Words(init)
    ensures Collect(init + [last]).keys == Words(init + [last])
    ensures forall i :: 0 <= i < |init + [last]| ==>
      (init + [last])[i].word in Collect(init + [last]).vals &&
      Collect(init + [last]).vals[(init + [last])[i].word] == (init + [last])[i].count
  {
    var s := init + [last];
    assert s[..|s| - 1] == init;
    var c := Collect(init);
    assert last.word !in c.vals;
    var r := Collect(s);
    assert r == Dict(c.keys + [last.word], c.vals[last.word := last.count]);
    assert Words(s) == Words(init) + [last.word];
    forall i | 0 <= i < |s| ensures s[i].word in r.vals && r.vals[s[i].word] == s[i].count {
      if i < |init| {
        assert s[i] == init[i] && init[i].word != last.word;
      }
    }
  }

  /** There is one record per property, in enumeration order, and the
      records are exactly the pairs of a property with its value. */
  lemma {:induction false} EntriesMembers(d: Dict<nat>)
    requires d.Valid()
    ensures Words(Entries(d)) == d.keys
    ensures DistinctWords(Entries(d))
    ensures forall x :: x in Entries(d) <==> x.word in d.vals && x.count == d.vals[x.word]
  {
    var es := Entries(d);
    forall x: Entry | x.word in d.vals && x.count == d.vals[x.word] ensures x in es {
      var i :| 0 <= i < |d.keys| && d.keys[i] == x.word;
      assert es[i] == x;
    }
  }

  // ---------------------------------------------------------------------
  // What is kept.

  /** The sorted records are sorted, have distinct words and are exactly the
      records of the table. */
  lemma {:induction false} SortedEntriesFacts(f: Dict<nat>)
    requires f.Valid()
    ensures |SortedEntries(f)| == |f.keys|
    ensures SortedByCount(SortedEntries(f))
    ensures DistinctWords(SortedEntries(f))
    ensures forall x :: x in SortedEntries(f) <==> x.word in f.vals && x.count == f.vals[x.word]
  {
    var es := Entries(f);
    var sorted := SortByCount(es);
    EntriesMembers(f);
    SortPermutation(es);
    assert |sorted| == |multiset(sorted)| == |multiset(es)| == |es|;
    SortSorted(es);
    SortDistinct(es);
    forall x ensures x in sorted <==> x in es {
      assert x in sorted <==> x in multiset(sorted);
      assert x in es <==> x in multiset(es);
    }
  }

  /** The result lists the kept records' words in order, with their counts. */
  lemma {:induction false} KeptFacts(f: Dict<nat>, limit: nat)
    requires f.Valid()
    ensures DistinctWords(KeptEntries(f, limit))
    ensures GetMostFrequentWords(f, limit).keys == Words(KeptEntries(f, limit))
    ensures forall i :: 0 <= i < |KeptEntries(f, limit)| ==>
      KeptEntries(f, limit)[i].word in GetMostFrequentWords(f, limit).vals &&
      GetMostFrequentWords(f, limit).vals[KeptEntries(f, limit)[i].word] == KeptEntries(f, limit)[i].count
  {
    SortedEntriesFacts(f);
    var sorted := SortedEntries(f);
    SuffixDistinct(sorted, SliceStart(|sorted|, limit));
    CollectDistinct(KeptEntries(f, limit));
  }

  /** A word is kept exactly when its record sits at or after the slice start. */
  lemma {:induction false} KeptPosition(f: Dict<nat>, limit: nat, w: string)
    requires f.Valid() && w in f.vals
    ensures Entry(w, f.vals[w]) in SortedEntries(f)
    ensures w in GetMostFrequentWords(f, limit).vals <==>
      IndexOf(SortedEntries(f), Entry(w, f.vals[w])) >= SliceStart(|SortedEntries(f)|, limit)
  {
    SortedEntriesFacts(f);
    KeptFacts(f, limit);
    var sorted := SortedEntries(f);
    var start := SliceStart(|sorted|, limit);
    var kept := KeptEntries(f, limit);
    var r := GetMostFrequentWords(f, limit);
    var x := Entry(w, f.vals[w]);
    var p := IndexOf(sorted, x);
    if w in r.vals {
      var k :| 0 <= k < |r.keys| && r.keys[k] == w;
      assert kept[k] == sorted[start + k];
      assert sorted[start + k] in sorted;
      assert sorted[start + k] == x;
      IndexOfDistinct(sorted, start + k);
    }
  }

  /** The result is part of the input table, with the same counts. */
  lemma {:induction false} TopWordsSubmap(f: Dict<nat>, limit: nat)
    requires f.Valid()
    ensures forall w :: w in GetMostFrequentWords(f, limit).vals ==>
      w in f.vals && GetMostFrequentWords(f, limit).vals[w] == f.vals[w]
  {
    var r := GetMostFrequentWords(f, limit);
    forall w | w in r.vals ensures w in f.vals && r.vals[w] == f.vals[w] {
      SubmapStep(f, limit, w);
    }
  }

  lemma {:induction false} SubmapStep(f: Dict<nat>, limit: nat, w: string)
    requires f.Valid() && w in GetMostFrequentWords(f, limit).vals
    ensures w in f.vals && GetMostFrequentWords(f, limit).vals[w] == f.vals[w]
  {
    SortedEntriesFacts(f);
    KeptFacts(f, limit);
    var sorted := SortedEntries(f);
    var start := SliceStart(|sorted|, limit);
    var kept := KeptEntries(f, limit);
    var r := GetMostFrequentWords(f, limit);
    var k :| 0 <= k < |r.keys| && r.keys[k] == w;
    assert kept[k].word == w;
    assert kept[k] == sorted[start + k];
    assert kept[k] in sorted;
  }

  /** The result has `min(limit, |table|)` entries, except that a limit of 0
      keeps the whole table; when nothing is cut off it is the whole table. */
  lemma {:induction false} TopWordsSize(f: Dict<nat>, limit: nat)
    requires f.Valid()
    ensures |GetMostFrequentWords(f, limit).keys| == (if limit == 0 || limit >= |f.keys| then |f.keys| else limit)
  {
    SortedEntriesFacts(f);
    KeptFacts(f, limit);
  }

  lemma {:induction false} TopWordsWhole(f: Dict<nat>, limit: nat)
    requires f.Valid()
    requires limit == 0 || limit >= |f.keys|
    ensures  GetMostFrequentWords(f, limit).vals == f.vals
  {
    var r := GetMostFrequentWords(f, limit);
    SortedEntriesFacts(f);
    TopWordsSubmap(f, limit);
    forall w | w in f.vals ensures w in r.vals {
      KeptPosition(f, limit, w);
    }
  }

  /** Every kept word has a count at least that of every dropped word. */
  lemma {:induction false} TopWordsByCount(f: Dict<nat>, limit: nat)
    requires f.Valid()
    ensures var r := GetMostFrequentWords(f, limit);
      forall w, d :: w in r.vals && d in f.vals && d !in r.vals ==> f.vals[d] <= r.vals[w]
  {
    var r := GetMostFrequentWords(f, limit);
    TopWordsSubmap(f, limit);
    forall w, d | w in r.vals && d in f.vals && d !in r.vals ensures f.vals[d] <= r.vals[w] {
      ByCountStep(f, limit, w, d);
    }
  }

  lemma {:induction false} ByCountStep(f: Dict<nat>, limit: nat, w: string, d: string)
    requires f.Valid() && w in f.vals && d in f.vals
    requires w in GetMostFrequentWords(f, limit).vals && d !in GetMostFrequentWords(f, limit).vals
    ensures f.vals[d] <= f.vals[w]
  {
    SortedEntriesFacts(f);
    KeptPosition(f, limit, w);
    KeptPosition(f, limit, d);
    var sorted := SortedEntries(f);
    var p := IndexOf(sorted, Entry(w, f.vals[w]));
    var q := IndexOf(sorted, Entry(d, f.vals[d]));
    assert q < p;
    assert sorted[q].count <= sorted[p].count;
  }

  /** Ties go to the word enumerated later: when an earlier key is kept and a
      later key is dropped, the earlier one has a strictly larger count. */
  lemma {:induction false} TopWordsTies(f: Dict<nat>, limit: nat)
    requires f.Valid()
    ensures var r := GetMostFrequentWords(f, limit);
      forall i, j :: 0 <= i < j < |f.keys| && f.keys[i] in r.vals && f.keys[j] !in r.vals ==>
        f.vals[f.keys[j]] < f.vals[f.keys[i]]
  {
    var r := GetMostFrequentWords(f, limit);
    forall i, j | 0 <= i < j < |f.keys| && f.keys[i] in r.vals && f.keys[j] !in r.vals
      ensures f.vals[f.keys[j]] < f.vals[f.keys[i]]
    {
      TieStep(f, limit, i, j);
    }
  }

  lemma {:induction false} TieStep(f: Dict<nat>, limit: nat, i: nat, j: nat)
    requires f.Valid() && 0 <= i < j < |f.keys|
    requires f.keys[i] in GetMostFrequentWords(f, limit).vals
    requires f.keys[j] !in GetMostFrequentWords(f, limit).vals
    ensures f.vals[f.keys[j]] < f.vals[f.keys[i]]
  {
    var a, b := f.keys[i], f.keys[j];
    ByCountStep(f, limit, a, b);
    if f.vals[b] == f.vals[a] {
      var c := f.vals[a];
      var es := Entries(f);
      var sorted := SortedEntries(f);
      EntriesMembers(f);
      SortedEntriesFacts(f);
      var x, y := es[i], es[j];
      IndexOfDistinct(es, i);
      IndexOfDistinct(es, j);
      WithCountOrder(es, c, x, y);
      KeptPosition(f, limit, a);
      KeptPosition(f, limit, b);
      WithCountOrder(sorted, c, y, x);
      SortStable(es, c);
      assert false;
    }
  }

  lemma {:induction false} SuffixDistinct(s: seq<Entry>, k: nat)
    requires DistinctWords(s) && k <= |s|
    ensures DistinctWords(s[k..])
  {
    forall i, j | 0 <= i < j < |s| - k ensures s[k..][i].word != s[k..][j].word {
      assert s[k..][i] == s[k + i] && s[k..][j] == s[k + j];
    }
  }

  lemma {:induction false} SuffixSorted(s: seq<Entry>, k: nat)
    requires SortedByCount(s) && k <= |s|
    ensures SortedByCount(s[k..])
  {
    forall i, j | 0 <= i < j < |s| - k ensures s[k..][i].count <= s[k..][j].count {
      assert s[k..][i] == s[k + i] && s[k..][j] == s[k + j];
    }
  }

  lemma {:induction false} KeptSorted(f: Dict<nat>, limit: nat)
    requires f.Valid()
    ensures SortedByCount(KeptEntries(f, limit))
  {
    SortedEntriesFacts(f);
    var sorted := SortedEntries(f);
    SuffixSorted(sorted, SliceStart(|sorted|, limit));
  }

  /** The kept words are enumerated in ascending order of count. */
  lemma {:induction false} TopWordsAscending(f: Dict<nat>, limit: nat)
    requires f.Valid()
    ensures var r := GetMostFrequentWords(f, limit);
      forall i, j :: 0 <= i < j < |r.keys| ==> r.vals[r.keys[i]] <= r.vals[r.keys[j]]
  {
    KeptFacts(f, limit);
    KeptSorted(f, limit);
    var kept := KeptEntries(f, limit);
    var r := GetMostFrequentWords(f, limit);
    forall i, j | 0 <= i < j < |r.keys| ensures r.vals[r.keys[i]] <= r.vals[r.keys[j]] {
      assert r.keys[i] == kept[i].word && r.keys[j] == kept[j].word;
    }
  }
}
