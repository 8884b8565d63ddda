/**
  The link generator of the blog graph: `build_links` scores every unordered
  pair of blog posts and emits a weighted link for each pair whose score is
  positive. The result is the links.json that the graph viewer feeds to its
  force layout, where a link's length is 100 / weight.

  The specification is the list of index pairs the two loops of
  `build_links` keep (`LinkedPairs`), built row by row in the order the loops
  visit them; `BuildLinks` is the loop itself, proved to produce exactly the
  links of those pairs. The enumeration of pairs is stated for any test
  `linked`, so its order, count and completeness are proved once, apart from
  the scoring rule.
*/
module GenerateLinks {
  import opened Wrappers

  /** A blog post as `build_links` reads it: its `id`, its `main_keyword`
      (`None` when the key is absent or null, as `dict.get` returns) and its
      `keyword` list (`[]` when the key is absent). */
  datatype BlogNode = BlogNode(id: string, mainKeyword: Option<string>, keywords: seq<string>)

  /** One entry of links.json. */
  datatype Link = Link(source: string, target: string, weight: nat)

  /** A pair of node indices (i, j). */
  type Pair = (nat, nat)

  // ---------------------------------------------------------------------------
  // The scoring rule

  /** Python's `set(keywords)`: duplicates collapse. */
  function KeywordSet(keywords: seq<string>): set<string>
  {
    set k | k in keywords
  }

  /** The keywords two posts have in common. */
  function SharedKeywords(a: BlogNode, b: BlogNode): set<string>
  {
    set k | k in a.keywords && k in b.keywords
  }

  /** 5 when the two `main_keyword` values compare equal (two missing ones included). */
  function MainKeywordBonus(a: BlogNode, b: BlogNode): nat
  {
    if a.mainKeyword == b.mainKeyword then 5 else 0
  }

  /** The score of a pair of posts: at most 5 plus the length of either keyword list. */
  function Weight(a: BlogNode, b: BlogNode): (r: nat)
    ensures r <= 5 + |a.keywords| && r <= 5 + |b.keywords|
  {
    KeywordSetSize(a.keywords);
    KeywordSetSize(b.keywords);
    SubsetSize(SharedKeywords(a, b), KeywordSet(a.keywords));
    SubsetSize(SharedKeywords(a, b), KeywordSet(b.keywords));
    MainKeywordBonus(a, b) + |SharedKeywords(a, b)|
  }

  /** The body of the inner loop of `build_links` up to the `weight > 0` test:
      start at 0, add 5 for matching main keywords, then add the size of the
      intersection of the two keyword sets. */
  method ScorePair(source: BlogNode, target: BlogNode) returns (weight: nat)
    ensures weight == Weight(source, target)
  {
    weight := 0;
    if source.mainKeyword == target.mainKeyword {
      weight := weight + 5;
    }
    var sourceKeywords := KeywordSet(source.keywords);
    var targetKeywords := KeywordSet(target.keywords);
    var sharedKeywords := sourceKeywords * targetKeywords;
    assert sharedKeywords == SharedKeywords(source, target);
    weight := weight + |sharedKeywords|;
  }

  /** A pair scores exactly when the main keywords match or a keyword is shared. */
  lemma WeightPositiveIff(a: BlogNode, b: BlogNode)
    ensures Weight(a, b) > 0 <==>
      a.mainKeyword == b.mainKeyword || exists k :: k in a.keywords && k in b.keywords
  {
    if k :| k in a.keywords && k in b.keywords {
      assert k in SharedKeywords(a, b);
    }
  }

  /** The score does not depend on which post is the source. */
  lemma WeightSymmetric(a: BlogNode, b: BlogNode)
    ensures Weight(a, b) == Weight(b, a)
  {
    assert SharedKeywords(a, b) == SharedKeywords(b, a);
  }

  /** Two posts that both lack `main_keyword` compare equal and gain 5. */
  lemma MissingMainKeywordsMatch(a: BlogNode, b: BlogNode)
    requires a.mainKeyword == None && b.mainKeyword == None
    ensures Weight(a, b) == 5 + |SharedKeywords(a, b)|
  {
  }

  /** Only the set of a post's keywords matters: two posts with the same main
      keyword and the same keywords, in any order and with any repeats, score
      the same against every post. */
  lemma KeywordSetDeterminesWeight(a: BlogNode, a2: BlogNode, b: BlogNode)
    requires a.mainKeyword == a2.mainKeyword
    requires KeywordSet(a.keywords) == KeywordSet(a2.keywords)
    ensures Weight(a, b) == Weight(a2, b)
  {
    forall k
      ensures k in a.keywords <==> k in a2.keywords
    {
      assert k in a.keywords <==> k in KeywordSet(a.keywords);
      assert k in a2.keywords <==> k in KeywordSet(a2.keywords);
    }
    assert SharedKeywords(a, b) == SharedKeywords(a2, b);
  }

  /** In particular, repeating a keyword a post already has changes no score. */
  lemma RepeatedKeywordCountsOnce(a: BlogNode, b: BlogNode, k: string)
    requires k in a.keywords
    ensures Weight(a.(keywords := a.keywords + [k]), b) == Weight(a, b)
  {
    assert KeywordSet(a.keywords + [k]) == KeywordSet(a.keywords);
    KeywordSetDeterminesWeight(a.(keywords := a.keywords + [k]), a, b);
  }

  lemma {:induction false} KeywordSetSize(keywords: seq<string>)
    ensures |KeywordSet(keywords)| <= |keywords|
  {
    if keywords != [] {
      var rest := keywords[1..];
      KeywordSetSize(rest);
      assert KeywordSet(keywords) == {keywords[0]} + KeywordSet(rest);
    }
  }

  lemma SubsetSize(a: set<string>, b: set<string>)
    requires a <= b
    ensures |a| <= |b|
  {
    assert b == a + (b - a);
  }

  // ---------------------------------------------------------------------------
  // Enumerating the pairs i < j < n that a test keeps

  /** The pair (i, j) when `linked` keeps it, nothing otherwise. */
  function Step(linked: (nat, nat) -> bool, i: nat, j: nat): seq<Pair>
  {
    if linked(i, j) then [(i, j)] else []
  }

  /** The pairs kept before the two loops over n nodes reach (i, j): every
      earlier row in full, then (i, i + 1), ..., (i, j - 1). */
  function Emitted(n: nat, linked: (nat, nat) -> bool, i: nat, j: nat): seq<Pair>
    requires i < j <= n
    decreases i, j
  {
    if j > i + 1 then Emitted(n, linked, i, j - 1) + Step(linked, i, j - 1)
    else if i == 0 then []
    else Emitted(n, linked, i - 1, n)
  }

  /** The pairs kept before row i begins. */
  function EmittedBefore(n: nat, linked: (nat, nat) -> bool, i: nat): seq<Pair>
    requires i <= n
  {
    if i == 0 then [] else Emitted(n, linked, i - 1, n)
  }

  predicate LexLess(p: Pair, q: Pair)
  {
    p.0 < q.0 || (p.0 == q.0 && p.1 < q.1)
  }

  predicate StrictlyOrdered(ps: seq<Pair>)
  {
    forall a, b :: 0 <= a < b < |ps| ==> LexLess(ps[a], ps[b])
  }

  /** What is emitted before (i, j) is a kept pair p.0 < p.1 < n that comes before (i, j). */
  lemma {:induction false} EmittedSound(n: nat, linked: (nat, nat) -> bool, i: nat, j: nat)
    requires i < j <= n
    ensures forall k :: 0 <= k < |Emitted(n, linked, i, j)| ==>
      Emitted(n, linked, i, j)[k].0 < Emitted(n, linked, i, j)[k].1 < n &&
      linked(Emitted(n, linked, i, j)[k].0, Emitted(n, linked, i, j)[k].1) &&
      LexLess(Emitted(n, linked, i, j)[k], (i, j))
    decreases i, j
  {
    if j > i + 1 {
      EmittedSound(n, linked, i, j - 1);
    } else if i > 0 {
      EmittedSound(n, linked, i - 1, n);
    }
  }

  /** Every kept pair p.0 < p.1 < n that comes before (i, j) is emitted before (i, j). */
  lemma {:induction false} EmittedComplete(n: nat, linked: (nat, nat) -> bool, i: nat, j: nat, p: Pair)
    requires i < j <= n
    requires p.0 < p.1 < n && linked(p.0, p.1) && LexLess(p, (i, j))
    ensures p in Emitted(n, linked, i, j)
    decreases i, j
  {
    if j > i + 1 {
      if p == (i, j - 1) {
        assert Emitted(n, linked, i, j) == Emitted(n, linked, i, j - 1) + [p];
      } else {
        EmittedComplete(n, linked, i, j - 1, p);
      }
    } else {
      EmittedComplete(n, linked, i - 1, n, p);
    }
  }

  lemma ConcatOrdered(ps: seq<Pair>, qs: seq<Pair>)
    requires StrictlyOrdered(ps) && StrictlyOrdered(qs)
    requires forall a, b :: 0 <= a < |ps| && 0 <= b < |qs| ==> LexLess(ps[a], qs[b])
    ensures StrictlyOrdered(ps + qs)
  {
  }

  /** The pairs come out in strictly increasing lexicographic order. */
  lemma {:induction false} EmittedOrdered(n: nat, linked: (nat, nat) -> bool, i: nat, j: nat)
    requires i < j <= n
    ensures StrictlyOrdered(Emitted(n, linked, i, j))
    decreases i, j
  {
    if j > i + 1 {
      EmittedOrdered(n, linked, i, j - 1);
      EmittedSound(n, linked, i, j - 1);
      ConcatOrdered(Emitted(n, linked, i, j - 1), Step(linked, i, j - 1));
    } else if i > 0 {
      EmittedOrdered(n, linked, i - 1, n);
    }
  }

  /** At most (n - 1) + (n - 2) + ... for the full rows, plus the part of row i done. */
  lemma {:induction false} EmittedCount(n: nat, linked: (nat, nat) -> bool, i: nat, j: nat)
    requires i < j <= n
    ensures 2 * |Emitted(n, linked, i, j)| <= i * (2 * n - i - 1) + 2 * (j - i - 1)
    decreases i, j
  {
    if j > i + 1 {
      EmittedCount(n, linked, i, j - 1);
    } else if i > 0 {
      EmittedCount(n, linked, i - 1, n);
      assert (i - 1) * (2 * n - i) + 2 * (n - i) == i * (2 * n - i - 1);
    }
  }

  // ---------------------------------------------------------------------------
  // The pairs build_links links, and their links

  /** The test `build_links` applies to the pair (i, j): `weight > 0`. */
  function IsLinked(nodes: seq<BlogNode>): (nat, nat) -> bool
  {
    (i: nat, j: nat) => i < j < |nodes| && Weight(nodes[i], nodes[j]) > 0
  }

  /** Every pair that gets a link, in the order `build_links` emits them. */
  function LinkedPairs(nodes: seq<BlogNode>): (r: seq<Pair>)
    ensures PairsInRange(nodes, r)
  {
    if |nodes| == 0 then []
    else
      EmittedSound(|nodes|, IsLinked(nodes), |nodes| - 1, |nodes|);
      Emitted(|nodes|, IsLinked(nodes), |nodes| - 1, |nodes|)
  }

  predicate PairsInRange(nodes: seq<BlogNode>, ps: seq<Pair>)
  {
    forall k :: 0 <= k < |ps| ==> ps[k].0 < |nodes| && ps[k].1 < |nodes|
  }

  /** The dictionary `build_links` appends for the pair p. */
  function ToLink(nodes: seq<BlogNode>, p: Pair): Link
    requires p.0 < |nodes| && p.1 < |nodes|
  {
    Link(nodes[p.0].id, nodes[p.1].id, Weight(nodes[p.0], nodes[p.1]))
  }

  /** The links of a list of pairs, one per pair, in the same order. */
  function LinksOf(nodes: seq<BlogNode>, ps: seq<Pair>): seq<Link>
    requires PairsInRange(nodes, ps)
  {
    seq(|ps|, k requires 0 <= k < |ps| => ToLink(nodes, ps[k]))
  }

  lemma LinksOfAppend(nodes: seq<BlogNode>, ps: seq<Pair>, p: Pair)
    requires PairsInRange(nodes, ps) && p.0 < |nodes| && p.1 < |nodes|
    ensures PairsInRange(nodes, ps + [p])
    ensures LinksOf(nodes, ps + [p]) == LinksOf(nodes, ps) + [ToLink(nodes, p)]
  {
  }

  /** `build_links`: two nested loops over i < j, a weight accumulated by
      `ScorePair`, and a list grown by `append` when the weight is positive. */
  method BuildLinks(nodes: seq<BlogNode>) returns (links: seq<Link>)
    ensures links == LinksOf(nodes, LinkedPairs(nodes))
    ensures forall k :: 0 <= k < |links| ==> links[k].weight > 0
  {
    ghost var linked := IsLinked(nodes);
    links := [];
    ghost var pairs: seq<Pair> := [];
    for i := 0 to |nodes|
      invariant pairs == EmittedBefore(|nodes|, linked, i)
      invariant PairsInRange(nodes, pairs)
      invariant links == LinksOf(nodes, pairs)
    {
      for j := i + 1 to |nodes|
        invariant pairs == Emitted(|nodes|, linked, i, j)
        invariant PairsInRange(nodes, pairs)
        invariant links == LinksOf(nodes, pairs)
      {
        var source := nodes[i];
        var target := nodes[j];
        var weight := ScorePair(source, target);
        if weight > 0 {
          LinksOfAppend(nodes, pairs, (i, j));
          links := links + [Link(source.id, target.id, weight)];
          pairs := pairs + [(i, j)];
        }
      }
    }
    LinkedPairsSound(nodes);
  }

  /** Every linked pair (i, j) has i < j < |nodes| and a positive weight. */
  lemma LinkedPairsSound(nodes: seq<BlogNode>)
    ensures forall k :: 0 <= k < |LinkedPairs(nodes)| ==>
      LinkedPairs(nodes)[k].0 < LinkedPairs(nodes)[k].1 < |nodes| &&
      Weight(nodes[LinkedPairs(nodes)[k].0], nodes[LinkedPairs(nodes)[k].1]) > 0
  {
    if |nodes| > 0 {
      EmittedSound(|nodes|, IsLinked(nodes), |nodes| - 1, |nodes|);
    }
  }

  /** A pair gets a link if and only if i < j and its weight is positive:
      no self-links, and nothing lost beyond the `weight > 0` filter. */
  lemma LinkedPairsMembership(nodes: seq<BlogNode>, i: nat, j: nat)
    ensures (i, j) in LinkedPairs(nodes) <==> i < j < |nodes| && Weight(nodes[i], nodes[j]) > 0
  {
    var ps := LinkedPairs(nodes);
    if (i, j) in ps {
      LinkedPairsSound(nodes);
      var k :| 0 <= k < |ps| && ps[k] == (i, j);
    }
    if i < j < |nodes| && Weight(nodes[i], nodes[j]) > 0 {
      EmittedComplete(|nodes|, IsLinked(nodes), |nodes| - 1, |nodes|, (i, j));
    }
  }

  /** Links come in lexicographic order of (i, j), so no pair appears twice. */
  lemma LinkedPairsOrdered(nodes: seq<BlogNode>)
    ensures StrictlyOrdered(LinkedPairs(nodes))
    ensures forall a, b :: 0 <= a < b < |LinkedPairs(nodes)| ==> LinkedPairs(nodes)[a] != LinkedPairs(nodes)[b]
  {
    if |nodes| > 0 {
      EmittedOrdered(|nodes|, IsLinked(nodes), |nodes| - 1, |nodes|);
    }
  }

  /** At most n(n-1)/2 links for n posts. */
  lemma LinkCountBound(nodes: seq<BlogNode>)
    ensures 2 * |LinkedPairs(nodes)| <= |nodes| * (|nodes| - 1)
  {
    var n := |nodes|;
    if n > 0 {
      EmittedCount(n, IsLinked(nodes), n - 1, n);
      var m := n - 1;
      assert 2 * n - m - 1 == n;
      assert m * n == n * m;
    }
  }

  /** The k-th link joins post i to post j, i < j, by their ids, and carries the
      weight 5-if-main-keywords-match plus the number of shared keywords, which is positive. */
  lemma LinkAt(nodes: seq<BlogNode>, k: nat)
    requires k < |LinkedPairs(nodes)|
    ensures var (i, j) := LinkedPairs(nodes)[k];
      var l := LinksOf(nodes, LinkedPairs(nodes))[k];
      i < j < |nodes| && l.source == nodes[i].id && l.target == nodes[j].id &&
      l.weight == MainKeywordBonus(nodes[i], nodes[j]) + |SharedKeywords(nodes[i], nodes[j])| &&
      l.weight > 0
  {
    LinkedPairsSound(nodes);
  }
}
