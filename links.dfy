/** `getLinks` (app.js:103-115): one link record per stored pair
    `edges[word1][word2]`, rows in enumeration order and, inside a row,
    followers in enumeration order, with `strength = count / 1000`. */
module Links {
  import opened Dicts
  import opened Edges

  datatype Link = Link(source: string, target: string, strength: real)

  /** `edges[word1][word2] / 1000`. Dafny reals are exact; the source divides in floating point. */
  function Strength(count: nat): real {
    count as real / 1000.0
  }

  /** The links the inner loop pushes for the first `k` followers of `row`. */
  function RowLinks(word1: string, row: Dict<nat>, k: nat): seq<Link>
    requires k <= |row.keys|
  {
    if k == 0 then []
    else RowLinks(word1, row, k - 1) + [Link(word1, row.keys[k - 1], Strength(Lookup(row, row.keys[k - 1])))]
  }

  /** The links pushed after the outer loop has visited the first `j` rows. */
  function LinksUpTo(edges: EdgeMap, j: nat): seq<Link>
    requires j <= |edges.keys|
  {
    if j == 0 then []
    else
      var row := RowOf(edges, edges.keys[j - 1]);
      LinksUpTo(edges, j - 1) + RowLinks(edges.keys[j - 1], row, |row.keys|)
  }

  function LinksOf(edges: EdgeMap): seq<Link> {
    LinksUpTo(edges, |edges.keys|)
  }

  method GetLinks(edges: EdgeMap) returns (result: seq<Link>)
    requires DeepValid(edges)
    ensures result == LinksOf(edges)
  {
    result := [];
    var j := 0;
    while j < |edges.keys|
      invariant j <= |edges.keys|
      invariant result == LinksUpTo(edges, j)
    {
      var word1 := edges.keys[j];
      var row := edges.vals[word1];
      LinksUpToStep(edges, j + 1);
      var k := 0;
      while k < |row.keys|
        invariant k <= |row.keys|
        invariant result == LinksUpTo(edges, j) + RowLinks(word1, row, k)
      {
        var word2 := row.keys[k];
        RowLinksStep(word1, row, k + 1);
        result := result + [Link(word1, word2, Strength(row.vals[word2]))];
        k := k + 1;
      }
      j := j + 1;
    }
  }

  // ---------------------------------------------------------------------
  // Properties.

  /** The `i`-th link of a row points at the row's `i`-th follower. */
  lemma {:induction false} RowLinksAt(word1: string, row: Dict<nat>, k: nat)
    requires k <= |row.keys|
    ensures |RowLinks(word1, row, k)| == k
    ensures forall i :: 0 <= i < k ==>
      RowLinks(word1, row, k)[i] == Link(word1, row.keys[i], Strength(Lookup(row, row.keys[i])))
  {
    if k > 0 {
      RowLinksAt(word1, row, k - 1);
    }
  }

  lemma {:induction false} RowLinksStep(word1: string, row: Dict<nat>, k: nat)
    requires 0 < k <= |row.keys|
    ensures RowLinks(word1, row, k)
      == RowLinks(word1, row, k - 1) + [Link(word1, row.keys[k - 1], Strength(Lookup(row, row.keys[k - 1])))]
  {
  }

  lemma {:induction false} LinksUpToStep(edges: EdgeMap, j: nat)
    requires 0 < j <= |edges.keys|
    ensures LinksUpTo(edges, j)
      == LinksUpTo(edges, j - 1) + RowLinks(edges.keys[j - 1], RowOf(edges, edges.keys[j - 1]), |RowOf(edges, edges.keys[j - 1]).keys|)
  {
  }

  /** Every link made from the first `j` rows starts at one of those rows'
      words and points at a follower listed in that row, with the strength
      of the follower's count. */
  lemma {:induction false} LinksSound(edges: EdgeMap, j: nat, l: Link)
    requires j <= |edges.keys| && l in LinksUpTo(edges, j)
    ensures l.source in edges.keys[..j]
    ensures l.target in RowOf(edges, l.source).keys
    ensures l.strength == Strength(Lookup(RowOf(edges, l.source), l.target))
  {
    LinksUpToStep(edges, j);
    var w := edges.keys[j - 1];
    var row := RowOf(edges, w);
    var prev := LinksUpTo(edges, j - 1);
    var rl := RowLinks(w, row, |row.keys|);
    assert edges.keys[..j] == edges.keys[..j - 1] + [w];
    if l in prev {
      LinksSound(edges, j - 1, l);
    } else {
      assert l in rl;
      RowLinksAt(w, row, |row.keys|);
      var i :| 0 <= i < |rl| && rl[i] == l;
      assert l.source == w && l.target == row.keys[i];
    }
  }

  /** Every follower listed in row `k` has its link once the outer loop has
      passed that row. */
  lemma {:induction false} LinksComplete(edges: EdgeMap, j: nat, k: nat, b: string)
    requires k < j <= |edges.keys| && b in RowOf(edges, edges.keys[k]).keys
    ensures Link(edges.keys[k], b, Strength(Lookup(RowOf(edges, edges.keys[k]), b))) in LinksUpTo(edges, j)
  {
    LinksUpToStep(edges, j);
    var w := edges.keys[k];
    var row := RowOf(edges, w);
    var target := Link(w, b, Strength(Lookup(row, b)));
    var prev := LinksUpTo(edges, j - 1);
    if k == j - 1 {
      var rl := RowLinks(w, row, |row.keys|);
      RowLinksAt(w, row, |row.keys|);
      var i :| 0 <= i < |row.keys| && row.keys[i] == b;
      assert rl[i] == target;
      assert target in rl;
    } else {
      LinksComplete(edges, j - 1, k, b);
      assert target in prev;
    }
  }

  /** A link record exists exactly for every stored pair, carrying
      `edges[source][target] / 1000`. */
  lemma {:induction false} LinksMembers(edges: EdgeMap)
    requires DeepValid(edges)
    ensures forall l :: l in LinksOf(edges) ==>
      Has2(edges, l.source, l.target) && l.strength == Strength(Lookup2(edges, l.source, l.target))
    ensures forall a, b :: Has2(edges, a, b) ==> Link(a, b, Strength(Lookup2(edges, a, b))) in LinksOf(edges)
  {
    assert edges.keys[..|edges.keys|] == edges.keys;
    forall l | l in LinksOf(edges)
      ensures Has2(edges, l.source, l.target) && l.strength == Strength(Lookup2(edges, l.source, l.target))
    {
      LinksSound(edges, |edges.keys|, l);
      assert l.source in edges.vals;
    }
    forall a, b | Has2(edges, a, b) ensures Link(a, b, Strength(Lookup2(edges, a, b))) in LinksOf(edges) {
      var k :| 0 <= k < |edges.keys| && edges.keys[k] == a;
      LinksComplete(edges, |edges.keys|, k, b);
    }
  }

  /** No key is enumerated before its own position. */
  lemma {:induction false} KeyNotBefore(edges: EdgeMap, j: nat)
    requires edges.Valid() && j < |edges.keys|
    ensures edges.keys[j] !in edges.keys[..j]
  {
    forall i | 0 <= i < j ensures edges.keys[..j][i] != edges.keys[j] {
      assert edges.keys[..j][i] == edges.keys[i];
    }
  }

  /** The links of one row all start at the row's word and join distinct pairs. */
  lemma {:induction false} RowLinksDistinct(word1: string, row: Dict<nat>)
    requires Distinct(row.keys)
    ensures Distinct(Pairs(RowLinks(word1, row, |row.keys|)))
    ensures forall l :: l in RowLinks(word1, row, |row.keys|) ==> l.source == word1
  {
    var rl := RowLinks(word1, row, |row.keys|);
    RowLinksAt(word1, row, |row.keys|);
    forall p, q | 0 <= p < q < |rl| ensures Pairs(rl)[p] != Pairs(rl)[q] {
      assert Pairs(rl)[p].1 == row.keys[p] && Pairs(rl)[q].1 == row.keys[q];
    }
  }

  /** Appending links that all start at a word no earlier link starts at
      keeps the pairs distinct. */
  lemma {:induction false} DistinctAppend(prev: seq<Link>, rl: seq<Link>, w: string)
    requires Distinct(Pairs(prev)) && Distinct(Pairs(rl))
    requires forall l :: l in prev ==> l.source != w
    requires forall l :: l in rl ==> l.source == w
    ensures Distinct(Pairs(prev + rl))
  {
    var ls := prev + rl;
    forall p, q | 0 <= p < q < |ls| ensures Pairs(ls)[p] != Pairs(ls)[q] {
      if q < |prev| {
        assert ls[p] == prev[p] && ls[q] == prev[q];
        assert Pairs(prev)[p] != Pairs(prev)[q];
      } else if p >= |prev| {
        assert ls[p] == rl[p - |prev|] && ls[q] == rl[q - |prev|];
        assert Pairs(rl)[p - |prev|] != Pairs(rl)[q - |prev|];
      } else {
        assert ls[p] == prev[p] && ls[p] in prev;
        assert ls[q] == rl[q - |prev|] && ls[q] in rl;
      }
    }
  }

  /** The links made before row `j - 1` start at other words. */
  lemma {:induction false} EarlierSources(edges: EdgeMap, j: nat)
    requires edges.Valid() && 0 < j <= |edges.keys|
    ensures forall l :: l in LinksUpTo(edges, j - 1) ==> l.source != edges.keys[j - 1]
  {
    KeyNotBefore(edges, j - 1);
    forall l | l in LinksUpTo(edges, j - 1) ensures l.source != edges.keys[j - 1] {
      LinksSound(edges, j - 1, l);
    }
  }

  /** Appending the links of a row whose word no earlier link starts at
      keeps the pairs distinct. */
  lemma {:induction false} DistinctRowStep(prev: seq<Link>, w: string, row: Dict<nat>)
    requires Distinct(Pairs(prev)) && Distinct(row.keys)
    requires forall l :: l in prev ==> l.source != w
    ensures Distinct(Pairs(prev + RowLinks(w, row, |row.keys|)))
  {
    RowLinksDistinct(w, row);
    DistinctAppend(prev, RowLinks(w, row, |row.keys|), w);
  }

  /** No two links of the first `j` rows join the same pair of words. */
  lemma {:induction false} LinksUpToDistinct(edges: EdgeMap, j: nat)
    requires DeepValid(edges) && j <= |edges.keys|
    ensures Distinct(Pairs(LinksUpTo(edges, j)))
  {
    if j > 0 {
      var w := edges.keys[j - 1];
      var row := RowOf(edges, w);
      var prev := LinksUpTo(edges, j - 1);
      LinksUpToDistinct(edges, j - 1);
      assert w in edges.vals && row.Valid();
      EarlierSources(edges, j);
      DistinctRowStep(prev, w, row);
      LinksUpToStep(edges, j);
    }
  }

  /** The pair `(source, target)` of every link. */
  function Pairs(ls: seq<Link>): seq<(string, string)> {
    seq(|ls|, i requires 0 <= i < |ls| => (ls[i].source, ls[i].target))
  }

  /** The stored pairs `(word1, word2)` of `edges`. */
  ghost function StoredPairs(edges: EdgeMap): set<(string, string)> {
    set a, b | a in edges.vals && b in edges.vals[a].vals :: (a, b)
  }

  /** The number of followers listed in the first `j` rows. */
  function RowSizes(edges: EdgeMap, j: nat): nat
    requires j <= |edges.keys|
  {
    if j == 0 then 0 else RowSizes(edges, j - 1) + |RowOf(edges, edges.keys[j - 1]).keys|
  }

  lemma {:induction false} LinksUpToLength(edges: EdgeMap, j: nat)
    requires j <= |edges.keys|
    ensures |LinksUpTo(edges, j)| == RowSizes(edges, j)
  {
    if j > 0 {
      LinksUpToLength(edges, j - 1);
      var row := RowOf(edges, edges.keys[j - 1]);
      RowLinksAt(edges.keys[j - 1], row, |row.keys|);
    }
  }

  /** There is exactly one link per stored pair: no two links join the same
      words, there are as many links as stored pairs, and that is the sum of
      the sizes of the rows. */
  lemma {:induction false} LinksOnePerPair(edges: EdgeMap)
    requires DeepValid(edges)
    ensures Distinct(Pairs(LinksOf(edges)))
    ensures |LinksOf(edges)| == |StoredPairs(edges)| == RowSizes(edges, |edges.keys|)
  {
    LinksUpToLength(edges, |edges.keys|);
    var ls := LinksOf(edges);
    var ps := Pairs(ls);
    LinksUpToDistinct(edges, |edges.keys|);
    LinksMembers(edges);
    assert (set x | x in ps) == StoredPairs(edges) by {
      forall x | x in ps ensures x in StoredPairs(edges) {
        var i :| 0 <= i < |ps| && ps[i] == x;
        assert ls[i] in ls;
      }
      forall x | x in StoredPairs(edges) ensures x in ps {
        var l := Link(x.0, x.1, Strength(Lookup2(edges, x.0, x.1)));
        assert l in ls;
        var i :| 0 <= i < |ls| && ls[i] == l;
        assert ps[i] == x;
      }
    }
    DistinctCard(ps);
  }
}
