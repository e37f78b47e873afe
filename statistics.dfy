/** The explorer's statistics panel: node and edge counts, average
    connections, density, community count, largest community, and the five
    nodes of highest value (a sorted copy of the nodes, cut to five). Numbers
    are exact rationals; the
    `toFixed` rounding of the display is not modelled. */
module Statistics {
  import opened Seqs
  import opened Graph

  /** The sort key: a node's value, a missing value counting as 0. */
  function Key(n: Node): real {
    match n.value
    case Some(v) => v
    case None => 0.0
  }

  predicate NonIncreasing(s: seq<Node>) {
    forall i, j :: 0 <= i < j < |s| ==> Key(s[j]) <= Key(s[i])
  }

  function HasKey(v: real): Node -> bool {
    (n: Node) => Key(n) == v
  }

  /** The nodes of `s` whose key is `v`, in their order in `s`. */
  function WithKey(s: seq<Node>, v: real): seq<Node> {
    Filter(s, HasKey(v))
  }

  lemma WithKeyCons(x: Node, s: seq<Node>, v: real)
    ensures WithKey([x] + s, v) == (if Key(x) == v then [x] else []) + WithKey(s, v)
  {
    assert ([x] + s)[0] == x;
    assert ([x] + s)[1..] == s;
  }

  /** Inserts `x` before the first element whose key is not above `x`'s:
      among equal keys, `x` goes first. */
  function InsertByValue(x: Node, t: seq<Node>): (r: seq<Node>)
    ensures multiset(r) == multiset(t) + multiset{x}
    ensures |r| == |t| + 1
    ensures r[0] == x || (t != [] && r[0] == t[0])
  {
    if t == [] || Key(t[0]) <= Key(x) then [x] + t
    else
      assert t == [t[0]] + t[1..];
      [t[0]] + InsertByValue(x, t[1..])
  }

  lemma {:induction false} InsertByValueSorted(x: Node, t: seq<Node>)
    requires NonIncreasing(t)
    ensures NonIncreasing(InsertByValue(x, t))
  {
    if t != [] && Key(x) < Key(t[0]) {
      var rest := InsertByValue(x, t[1..]);
      InsertByValueSorted(x, t[1..]);
      assert rest[0] == x || rest[0] == t[1];
      assert Key(rest[0]) <= Key(t[0]);
    }
  }

  /** Inserting into a sorted sequence puts `x` ahead of every element of the
      same key. */
  lemma {:induction false} InsertByValueStable(x: Node, t: seq<Node>, v: real)
    requires NonIncreasing(t)
    ensures WithKey(InsertByValue(x, t), v) == (if Key(x) == v then [x] else []) + WithKey(t, v)
  {
    if t == [] || Key(t[0]) <= Key(x) {
      WithKeyCons(x, t, v);
    } else {
      var tail := t[1..];
      var rest := InsertByValue(x, tail);
      assert InsertByValue(x, t) == [t[0]] + rest;
      assert t == [t[0]] + tail;
      assert NonIncreasing(tail) by {
        forall i, j | 0 <= i < j < |tail| ensures Key(tail[j]) <= Key(tail[i]) {
          assert tail[i] == t[i + 1] && tail[j] == t[j + 1];
        }
      }
      InsertByValueStable(x, tail, v);
      WithKeyCons(t[0], rest, v);
      WithKeyCons(t[0], tail, v);
      var head := if Key(t[0]) == v then [t[0]] else [];
      var mine := if Key(x) == v then [x] else [];
      assert WithKey(InsertByValue(x, t), v) == head + (mine + WithKey(tail, v));
      assert WithKey(t, v) == head + WithKey(tail, v);
      if Key(x) == v {
        assert head == [];
        assert head + (mine + WithKey(tail, v)) == mine + WithKey(tail, v);
        assert WithKey(t, v) == WithKey(tail, v);
      } else {
        assert mine == [];
        assert mine + WithKey(tail, v) == WithKey(tail, v);
        assert mine + WithKey(t, v) == WithKey(t, v);
      }
    }
  }

  /** The stable descending sort by key (the engine's `Array.prototype.sort`
      is stable). */
  function SortByValue(s: seq<Node>): (r: seq<Node>)
    ensures multiset(r) == multiset(s)
    ensures |r| == |s|
    ensures NonIncreasing(r)
  {
    if s == [] then []
    else
      assert s == [s[0]] + s[1..];
      var rest := SortByValue(s[1..]);
      InsertByValueSorted(s[0], rest);
      InsertByValue(s[0], rest)
  }

  /** Stability: within each key, the sorted order is the original order. */
  lemma {:induction false} SortByValueStable(s: seq<Node>, v: real)
    ensures WithKey(SortByValue(s), v) == WithKey(s, v)
  {
    if s != [] {
      var rest := SortByValue(s[1..]);
      SortByValueStable(s[1..], v);
      InsertByValueStable(s[0], rest, v);
      assert s == [s[0]] + s[1..];
      WithKeyCons(s[0], s[1..], v);
    }
  }

  /** The first five nodes of the sorted copy. */
  function TopNodes(nodes: seq<Node>): seq<Node> {
    Take(SortByValue(nodes), 5)
  }

  /** The top list holds `min(5, n)` nodes, by non-increasing value, drawn
      from the dataset. */
  lemma {:induction false} TopNodesSpec(nodes: seq<Node>)
    ensures |TopNodes(nodes)| == if |nodes| < 5 then |nodes| else 5
    ensures NonIncreasing(TopNodes(nodes))
    ensures multiset(TopNodes(nodes)) <= multiset(nodes)
  {
    var sorted := SortByValue(nodes);
    var top := TopNodes(nodes);
    assert sorted == top + sorted[|top|..];
    assert multiset(sorted) == multiset(top) + multiset(sorted[|top|..]);
  }

  /** In a non-increasing sequence nothing after position `k` is above
      anything before it. */
  lemma SortedSplit(s: seq<Node>, k: nat)
    requires NonIncreasing(s) && k <= |s|
    ensures forall x, y :: x in s[k..] && y in s[..k] ==> Key(x) <= Key(y)
  {
    forall x, y | x in s[k..] && y in s[..k] ensures Key(x) <= Key(y) {
      var j :| 0 <= j < |s[k..]| && s[k..][j] == x;
      var i :| 0 <= i < k && s[..k][i] == y;
      assert s[k + j] == x && s[i] == y;
    }
  }

  /** No node left out of the top list has a higher value than a node in it. */
  lemma {:induction false} TopNodesAreHighest(nodes: seq<Node>)
    ensures forall x, y :: x in multiset(nodes) - multiset(TopNodes(nodes)) && y in TopNodes(nodes) ==>
              Key(x) <= Key(y)
  {
    var sorted := SortByValue(nodes);
    var top := TopNodes(nodes);
    var rest := sorted[|top|..];
    assert top == sorted[..|top|];
    assert multiset(nodes) - multiset(top) == multiset(rest) by {
      assert sorted == top + rest;
    }
    SortedSplit(sorted, |top|);
    forall x, y | x in multiset(nodes) - multiset(top) && y in top ensures Key(x) <= Key(y) {
      assert x in rest;
    }
  }

  /** Ties keep their order: among the nodes of any one value, the top list
      holds the earliest ones of the dataset, in the dataset's order. */
  lemma {:induction false} TopNodesStable(nodes: seq<Node>, v: real)
    ensures WithKey(TopNodes(nodes), v) <= WithKey(nodes, v)
  {
    var sorted := SortByValue(nodes);
    FilterPrefix(sorted, |TopNodes(nodes)|, HasKey(v));
    SortByValueStable(nodes, v);
  }

  /** The largest size, as `Math.max` gives it: `-Infinity` for no
      arguments. */
  datatype Largest = NegativeInfinity | Size(count: nat)

  function MaxOf(sizes: seq<nat>): (r: Largest)
    ensures r.NegativeInfinity? <==> sizes == []
    ensures r.Size? ==> exists i :: 0 <= i < |sizes| && sizes[i] == r.count
    ensures r.Size? ==> forall i :: 0 <= i < |sizes| ==> sizes[i] <= r.count
  {
    if sizes == [] then NegativeInfinity
    else
      var last := sizes[|sizes| - 1];
      match MaxOf(sizes[..|sizes| - 1])
      case NegativeInfinity => Size(last)
      case Size(k) => Size(if last > k then last else k)
  }

  /** The mean degree, 0 without nodes: twice the edges shared among the
      nodes. */
  function AverageConnections(n: nat, m: nat): (r: real)
    ensures n > 0 ==> r * n as real == 2.0 * m as real
    ensures n == 0 ==> r == 0.0
  {
    if n > 0 then (2 * m) as real / n as real else 0.0
  }

  /** The density, 0 for at most one node: edges over the number of node
      pairs. */
  function Density(n: nat, m: nat): (r: real)
    ensures n > 1 ==> r * (n * (n - 1)) as real == 2.0 * m as real
    ensures n <= 1 ==> r == 0.0
  {
    if n > 1 then (2 * m) as real / (n * (n - 1)) as real else 0.0
  }

  /** The two links join the same two node ids, in either direction. */
  predicate SamePair(a: Link, b: Link) {
    || (a.source == b.source && a.target == b.target)
    || (a.source == b.target && a.target == b.source)
  }

  /** No two links of the list join the same pair of nodes. */
  predicate DistinctPairs(links: seq<Link>) {
    forall i, j :: 0 <= i < j < |links| ==> !SamePair(links[i], links[j])
  }

  /** A simple undirected network: node ids are unique, every link joins two
      different nodes of the network, and no pair of nodes is joined twice.
      This is the graph the density formula presumes. */
  ghost predicate Simple(g: Graph) {
    && UniqueIds(g.nodes)
    && (forall l :: l in g.links ==>
          l.source in NodeIds(g.nodes) && l.target in NodeIds(g.nodes) && l.source != l.target)
    && DistinctPairs(g.links)
  }

  /** The test "the link has `d` as an endpoint". */
  function Touches(d: string): Link -> bool {
    (l: Link) => l.source == d || l.target == d
  }

  /** The test "the link does not have `d` as an endpoint". */
  function Avoids(d: string): Link -> bool {
    (l: Link) => l.source != d && l.target != d
  }

  /** Every link either touches `d` or avoids it. */
  lemma {:induction false} TouchSplit(links: seq<Link>, d: string)
    ensures |Filter(links, Touches(d))| + |Filter(links, Avoids(d))| == |links|
  {
    if links != [] {
      assert links == [links[0]] + links[1..];
      FilterCons(links[0], links[1..], Touches(d));
      FilterCons(links[0], links[1..], Avoids(d));
      TouchSplit(links[1..], d);
    }
  }

  /** Every link of the list joins two different ids of `ids`. */
  ghost predicate LinksWithin(links: seq<Link>, ids: set<string>) {
    forall l :: l in links ==> l.source in ids && l.target in ids && l.source != l.target
  }

  lemma DistinctPairsTail(links: seq<Link>)
    requires DistinctPairs(links) && links != []
    ensures DistinctPairs(links[1..])
  {
    var tail := links[1..];
    forall i, j | 0 <= i < j < |tail| ensures !SamePair(tail[i], tail[j]) {
      assert tail[i] == links[i + 1] && tail[j] == links[j + 1];
    }
  }

  /** The first link shares its pair with no link the filter keeps. */
  lemma FirstApart(links: seq<Link>, p: Link -> bool, y: Link)
    requires DistinctPairs(links) && links != [] && y in Filter(links[1..], p)
    ensures !SamePair(links[0], y)
  {
    FilterMember(links[1..], p, y);
    var k :| 0 <= k < |links[1..]| && links[1..][k] == y;
    assert links[k + 1] == y;
  }

  /** Dropping links keeps the remaining pairs distinct. */
  lemma {:induction false} FilterDistinctPairs(links: seq<Link>, p: Link -> bool)
    requires DistinctPairs(links)
    ensures DistinctPairs(Filter(links, p))
  {
    if links != [] {
      var tail := links[1..];
      assert links == [links[0]] + tail;
      DistinctPairsTail(links);
      FilterDistinctPairs(tail, p);
      FilterCons(links[0], tail, p);
      var rest := Filter(tail, p);
      if p(links[0]) {
        var r := [links[0]] + rest;
        forall i, j | 0 <= i < j < |r| ensures !SamePair(r[i], r[j]) {
          if i == 0 {
            assert r[j] == rest[j - 1];
            FirstApart(links, p, rest[j - 1]);
          } else {
            assert r[i] == rest[i - 1] && r[j] == rest[j - 1];
          }
        }
      }
    }
  }

  /** The far ends, seen from `d`, of links that touch `d`. */
  function FarEnds(links: seq<Link>, d: string): (r: seq<string>)
    ensures |r| == |links|
    ensures forall i :: 0 <= i < |links| ==>
      r[i] == if links[i].source == d then links[i].target else links[i].source
  {
    if links == [] then []
    else [if links[0].source == d then links[0].target else links[0].source] + FarEnds(links[1..], d)
  }

  /** Distinct links at `d` lead to distinct far ends. */
  lemma FarEndsDistinct(t: seq<Link>, d: string, ids: set<string>)
    requires DistinctPairs(t) && LinksWithin(t, ids)
    requires forall i :: 0 <= i < |t| ==> Touches(d)(t[i])
    ensures NoDup(FarEnds(t, d))
  {
    var far := FarEnds(t, d);
    forall i, j | 0 <= i < j < |far| ensures far[i] != far[j] {
      assert Touches(d)(t[i]) && Touches(d)(t[j]);
      assert t[i] in t && t[j] in t;
      assert !SamePair(t[i], t[j]);
    }
  }

  /** The far ends of links at `d` are ids other than `d`. */
  lemma FarEndsWithin(t: seq<Link>, d: string, ids: set<string>)
    requires LinksWithin(t, ids)
    requires forall i :: 0 <= i < |t| ==> Touches(d)(t[i])
    ensures Elements(FarEnds(t, d)) <= ids - {d}
  {
    var far := FarEnds(t, d);
    forall e | e in Elements(far) ensures e in ids - {d} {
      var i :| 0 <= i < |far| && far[i] == e;
      assert Touches(d)(t[i]);
      assert t[i] in t;
    }
  }

  /** Keeping some links of a list keeps them within the same ids. */
  lemma FilterWithin(links: seq<Link>, p: Link -> bool, ids: set<string>)
    requires LinksWithin(links, ids)
    ensures LinksWithin(Filter(links, p), ids)
  {
    forall l | l in Filter(links, p) ensures l.source in ids && l.target in ids && l.source != l.target {
      FilterMember(links, p, l);
    }
  }

  /** A node of a simple network has fewer links than there are other nodes. */
  lemma DegreeBound(g: Graph, d: string)
    requires Simple(g) && d in NodeIds(g.nodes)
    ensures |Filter(g.links, Touches(d))| <= |g.nodes| - 1
  {
    var t := Filter(g.links, Touches(d));
    var ids := NodeIds(g.nodes);
    assert LinksWithin(g.links, ids);
    FilterWithin(g.links, Touches(d), ids);
    FilterDistinctPairs(g.links, Touches(d));
    FarEndsDistinct(t, d, ids);
    FarEndsWithin(t, d, ids);
    UniqueIdsCount(g.nodes);
    NoDupCardinality(FarEnds(t, d));
    SubsetCardinality(Elements(FarEnds(t, d)), ids - {d});
  }

  /** The network left after removing the last node and its links. */
  lemma RemoveLastSimple(g: Graph)
    requires Simple(g) && g.nodes != []
    ensures Simple(Graph(g.nodes[..|g.nodes| - 1], Filter(g.links, Avoids(g.nodes[|g.nodes| - 1].id))))
  {
    var d := g.nodes[|g.nodes| - 1].id;
    var init := g.nodes[..|g.nodes| - 1];
    var rest := Filter(g.links, Avoids(d));
    NodeIdsInit(g.nodes);
    FilterDistinctPairs(g.links, Avoids(d));
    forall l | l in rest
      ensures l.source in NodeIds(init) && l.target in NodeIds(init) && l.source != l.target
    {
      FilterMember(g.links, Avoids(d), l);
    }
  }

  /** A simple network has at most `n(n-1)/2` links. */
  lemma {:induction false} SimpleLinkBound(g: Graph)
    requires Simple(g)
    ensures 2 * |g.links| <= |g.nodes| * (|g.nodes| - 1)
    decreases |g.nodes|
  {
    if g.nodes != [] {
      var n := |g.nodes|;
      var d := g.nodes[n - 1].id;
      var h := Graph(g.nodes[..n - 1], Filter(g.links, Avoids(d)));
      RemoveLastSimple(g);
      SimpleLinkBound(h);
      assert g.nodes[n - 1] in g.nodes;
      DegreeBound(g, d);
      TouchSplit(g.links, d);
      StepBound(n, |Filter(g.links, Touches(d))|, |h.links|);
    }
  }

  /** The count step: a new node adds at most `n - 1` links to a network of
      `n - 1` nodes. */
  lemma StepBound(n: nat, t: nat, r: nat)
    requires n >= 1 && t <= n - 1 && 2 * r <= (n - 1) * (n - 1 - 1)
    ensures 2 * (t + r) <= n * (n - 1)
  {
    assert (n - 1) * (n - 1 - 1) + 2 * (n - 1) == n * (n - 1);
  }

  lemma DensityBound(n: nat, m: nat)
    requires 2 * m <= n * (n - 1)
    ensures Density(n, m) <= 1.0
  {
    if n > 1 {
      var pairs := (n * (n - 1)) as real;
      assert Density(n, m) * pairs == 2.0 * m as real <= pairs;
    }
  }

  /** The density of a simple network is at most 1. */
  lemma DensityAtMostOne(g: Graph)
    requires Simple(g)
    ensures Density(|g.nodes|, |g.links|) <= 1.0
  {
    SimpleLinkBound(g);
    DensityBound(|g.nodes|, |g.links|);
  }

  datatype Stats = Stats(
    n: nat,
    m: nat,
    avgConn: real,
    density: real,
    numComms: nat,
    largestComm: Largest,
    topNodes: seq<Node>)

  /** The `stats` memo, computed from the dataset alone. */
  function StatsOf(g: Graph): (r: Stats)
    ensures r.n == |g.nodes| && r.m == |g.links|
    ensures r.numComms == |AllCommunities(g.nodes)|
  {
    var n, m := |g.nodes|, |g.links|;
    var comms := AllCommunities(g.nodes);
    Stats(n, m, AverageConnections(n, m), Density(n, m), |comms|,
          MaxOf(CommunitySizes(g.nodes, comms)), TopNodes(g.nodes))
  }

  /** The community count is the number of distinct communities; the largest
      community is `-Infinity` exactly for an empty dataset, and otherwise
      the size of some community, at least that of every other, between 1 and
      the node count. */
  lemma {:induction false} CommunityStats(g: Graph)
    ensures StatsOf(g).numComms == |CommunitySet(g.nodes)|
    ensures StatsOf(g).largestComm.NegativeInfinity? <==> g.nodes == []
    ensures StatsOf(g).largestComm.Size? ==>
      var k := StatsOf(g).largestComm.count;
      && 1 <= k <= |g.nodes|
      && (exists c :: c in CommunitySet(g.nodes) && CommunitySize(g.nodes, c) == k)
      && (forall c :: c in CommunitySet(g.nodes) ==> CommunitySize(g.nodes, c) <= k)
  {
    var comms := AllCommunities(g.nodes);
    var sizes := CommunitySizes(g.nodes, comms);
    AllCommunitiesSpec(g.nodes);
    if g.nodes == [] {
      assert CommunitySet(g.nodes) == {};
    } else {
      assert g.nodes[0] in g.nodes;
      assert g.nodes[0].community in CommunitySet(g.nodes);
      assert comms != [] by { assert g.nodes[0].community in Elements(comms); }
      var k := MaxOf(sizes).count;
      var i :| 0 <= i < |sizes| && sizes[i] == k;
      assert comms[i] in Elements(comms);
      var n :| n in g.nodes && n.community == comms[i];
      MemberOfOwnCommunity(g.nodes, n);
      MembersSpec(g.nodes, comms[i]);
      forall c | c in CommunitySet(g.nodes) ensures CommunitySize(g.nodes, c) <= k {
        assert c in Elements(comms);
        var j :| 0 <= j < |comms| && comms[j] == c;
        assert sizes[j] == CommunitySize(g.nodes, c);
      }
    }
  }
}
