/** `processText` (app.js:34-56): tokens, word counts, the `wordLimit` most
    frequent words as nodes, their edges pruned to `relatedWordsLimit`
    followers, and the links of those edges; and the classes `mousemove`
    sets on the nodes (app.js:150-151). */
module Analyzer {
  import opened Dicts
  import opened Tokenizer
  import opened Frequencies
  import opened TopWords
  import opened Edges
  import opened Links
  import opened Hover

  /** A node of the layout (app.js:43-48): a kept word with its count, which
      stands in for the radius computed from it. It is the record
      `getMostFrequentWords` makes of a property. */
  type Node = Entry

  /** What `processText` hands to the layout. */
  datatype Graph = Graph(nodes: seq<Node>, edges: EdgeMap, links: seq<Link>)

  /** `Object.keys(mostFrequentWords).map(d => ({word: d, ...}))`: the most
      frequent words of the tokens, as nodes. */
  function Nodes(words: seq<string>, wordLimit: nat): seq<Node> {
    Entries(GetMostFrequentWords(WordFrequencies(words), wordLimit))
  }

  function Analyze(text: string, wordLimit: nat, relatedWordsLimit: nat): Graph {
    var words := ParseText(text);
    var top := GetMostFrequentWords(WordFrequencies(words), wordLimit);
    var edges := PrunedEdges(words, top, relatedWordsLimit);
    Graph(Nodes(words, wordLimit), edges, LinksOf(edges))
  }

  method ProcessText(text: string, wordLimit: nat, relatedWordsLimit: nat) returns (g: Graph)
    ensures g == Analyze(text, wordLimit, relatedWordsLimit)
  {
    var words := ParseText(text);
    var wordFrequencies := GetWordFrequencies(words);
    var mostFrequentWords := GetMostFrequentWords(wordFrequencies, wordLimit);
    var nodes := Entries(mostFrequentWords);
    var edges := GetEdges(words, mostFrequentWords, relatedWordsLimit);
    EdgesShape(words, mostFrequentWords, relatedWordsLimit);
    var links := GetLinks(edges);
    g := Graph(nodes, edges, links);
  }

  /** The classes `mousemove` gives the nodes, in node order. */
  function NodeClasses(g: Graph, hovered: Option<string>): seq<CssClass> {
    seq(|g.nodes|, i requires 0 <= i < |g.nodes| => GetClass(hovered, g.nodes[i].word, g.edges))
  }

  // ---------------------------------------------------------------------
  // Nodes.

  /** The nodes are the kept words in enumeration order with their counts. */
  lemma {:induction false} NodesFacts(top: Dict<nat>)
    requires top.Valid()
    ensures |Entries(top)| == |top.keys|
    ensures forall i :: 0 <= i < |top.keys| ==> Entries(top)[i] == Entry(top.keys[i], top.vals[top.keys[i]])
    ensures forall w :: w in top.vals <==> w in Words(Entries(top))
    ensures Distinct(Words(Entries(top)))
  {
    EntriesMembers(top);
  }

  /** The words of the tokens, as a set. */
  ghost function TokenSet(words: seq<string>): set<string> {
    set w | w in words
  }

  /** There are as many counted words as distinct tokens. */
  lemma {:induction false} DistinctTokens(words: seq<string>)
    ensures |WordFrequencies(words).keys| == |TokenSet(words)|
  {
    var wf := WordFrequencies(words);
    WordFrequenciesCount(words);
    assert (set x | x in wf.keys) == TokenSet(words);
    DistinctCard(wf.keys);
  }

  /** Every node is a distinct token, with its number of occurrences. */
  lemma {:induction false} NodesAreTokens(words: seq<string>, wordLimit: nat)
    ensures Distinct(Words(Nodes(words, wordLimit)))
    ensures forall i :: 0 <= i < |Nodes(words, wordLimit)| ==> Nodes(words, wordLimit)[i].word in words
    ensures forall i :: 0 <= i < |Nodes(words, wordLimit)| ==>
      Nodes(words, wordLimit)[i].count == multiset(words)[Nodes(words, wordLimit)[i].word] >= 1
  {
    var wf := WordFrequencies(words);
    var top := GetMostFrequentWords(wf, wordLimit);
    var nodes := Nodes(words, wordLimit);
    WordFrequenciesCount(words);
    NodesFacts(top);
    TopWordsSubmap(wf, wordLimit);
    forall i | 0 <= i < |nodes| ensures nodes[i].word in words && nodes[i].count == multiset(words)[nodes[i].word] >= 1 {
      assert nodes[i].word in top.vals;
      assert Lookup(wf, nodes[i].word) == multiset(words)[nodes[i].word];
    }
  }

  /** There are `wordLimit` nodes, or one per distinct token when there are
      no more distinct tokens than that or `wordLimit` is 0. */
  lemma {:induction false} NodeCount(words: seq<string>, wordLimit: nat)
    ensures |Nodes(words, wordLimit)| ==
      if wordLimit == 0 || wordLimit >= |TokenSet(words)| then |TokenSet(words)| else wordLimit
  {
    var wf := WordFrequencies(words);
    WordFrequenciesCount(words);
    NodesFacts(GetMostFrequentWords(wf, wordLimit));
    TopWordsSize(wf, wordLimit);
    DistinctTokens(words);
  }

  /** The nodes are listed by ascending count. */
  lemma {:induction false} NodesAscending(words: seq<string>, wordLimit: nat)
    ensures forall i, j :: 0 <= i < j < |Nodes(words, wordLimit)| ==>
      Nodes(words, wordLimit)[i].count <= Nodes(words, wordLimit)[j].count
  {
    var wf := WordFrequencies(words);
    WordFrequenciesCount(words);
    NodesFacts(GetMostFrequentWords(wf, wordLimit));
    TopWordsAscending(wf, wordLimit);
  }

  /** No token left out occurs more often than the word of any node. */
  lemma {:induction false} NodesMostFrequent(words: seq<string>, wordLimit: nat)
    ensures forall i, w :: 0 <= i < |Nodes(words, wordLimit)| && w in words && w !in Words(Nodes(words, wordLimit)) ==>
      multiset(words)[w] <= Nodes(words, wordLimit)[i].count
  {
    var wf := WordFrequencies(words);
    var top := GetMostFrequentWords(wf, wordLimit);
    var nodes := Nodes(words, wordLimit);
    WordFrequenciesCount(words);
    NodesFacts(top);
    TopWordsSubmap(wf, wordLimit);
    forall i, w | 0 <= i < |nodes| && w in words && w !in Words(nodes)
      ensures multiset(words)[w] <= nodes[i].count
    {
      assert nodes[i].word in top.vals;
      assert Lookup(wf, w) == multiset(words)[w];
      ByCountStep(wf, wordLimit, nodes[i].word, w);
    }
  }

  // ---------------------------------------------------------------------
  // Links.

  /** Every link joins two node words that occur next to each other, with
      strength equal to the number of such occurrences over 1000; no two
      links join the same words, and there is one per stored pair. */
  lemma {:induction false} AnalyzeLinks(text: string, wordLimit: nat, relatedWordsLimit: nat)
    ensures var g := Analyze(text, wordLimit, relatedWordsLimit);
      forall l :: l in g.links ==>
        l.source in Words(g.nodes) && l.target in Words(g.nodes) &&
        PairCount(ParseText(text), l.source, l.target, |ParseText(text)|) > 0 &&
        l.strength == Strength(PairCount(ParseText(text), l.source, l.target, |ParseText(text)|))
    ensures var g := Analyze(text, wordLimit, relatedWordsLimit);
      Distinct(Pairs(g.links)) && |g.links| == |StoredPairs(g.edges)|
  {
    var words := ParseText(text);
    var top := GetMostFrequentWords(WordFrequencies(words), wordLimit);
    var g := Analyze(text, wordLimit, relatedWordsLimit);
    EdgesShape(words, top, relatedWordsLimit);
    LinksMembers(g.edges);
    LinksOnePerPair(g.edges);
    NodesFacts(top);
    forall l | l in g.links
      ensures l.source in Words(g.nodes) && l.target in Words(g.nodes)
      ensures PairCount(words, l.source, l.target, |words|) > 0
      ensures l.strength == Strength(PairCount(words, l.source, l.target, |words|))
    {
      EdgePairAt(words, top, relatedWordsLimit, l.source, l.target);
      assert Lookup2(g.edges, l.source, l.target) == g.edges.vals[l.source].vals[l.target];
    }
  }

  // ---------------------------------------------------------------------
  // Hovering.

  /** At most one node is selected, and it is the node of the hovered word;
      a related node has a tier between 1 and 8. */
  lemma {:induction false} AnalyzeClasses(text: string, wordLimit: nat, relatedWordsLimit: nat, hovered: Option<string>)
    ensures var g := Analyze(text, wordLimit, relatedWordsLimit);
      forall i, j :: 0 <= i < j < |g.nodes| ==> NodeClasses(g, hovered)[i] != Selected || NodeClasses(g, hovered)[j] != Selected
    ensures var g := Analyze(text, wordLimit, relatedWordsLimit);
      forall i :: 0 <= i < |g.nodes| && NodeClasses(g, hovered)[i] == Selected ==> hovered == Some(g.nodes[i].word)
    ensures var g := Analyze(text, wordLimit, relatedWordsLimit);
      forall i :: 0 <= i < |g.nodes| && NodeClasses(g, hovered)[i].Related? ==> 1 <= NodeClasses(g, hovered)[i].tier <= 8
  {
    var words := ParseText(text);
    var top := GetMostFrequentWords(WordFrequencies(words), wordLimit);
    var g := Analyze(text, wordLimit, relatedWordsLimit);
    var cs := NodeClasses(g, hovered);
    NodesFacts(top);
    forall i, j | 0 <= i < j < |g.nodes| ensures cs[i] != Selected || cs[j] != Selected {
      assert Words(g.nodes)[i] != Words(g.nodes)[j];
    }
    forall i | 0 <= i < |g.nodes| && cs[i].Related? ensures 1 <= cs[i].tier <= 8 {
      var h := hovered.value;
      EdgePairAt(words, top, relatedWordsLimit, h, g.nodes[i].word);
    }
  }

  /** With nothing under the mouse every node is plain. */
  lemma {:induction false} NothingHoveredAllPlain(g: Graph)
    ensures forall i :: 0 <= i < |g.nodes| ==> NodeClasses(g, None)[i] == Plain
  {
    forall i | 0 <= i < |g.nodes| ensures NodeClasses(g, None)[i] == Plain {
      NothingHovered(g.nodes[i].word, g.edges);
    }
  }
}
