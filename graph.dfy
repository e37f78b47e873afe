/** The network dataset both pages load: nodes with a community label and
    links between node ids, together with the community enumeration
    (the distinct community labels, numerically sorted)
    and the per-community member lists. */
module Graph {
  import opened Seqs

  /** A node as the JSON files hold it. `value` is optional (the top-five
      sort reads a missing value as 0); `color` is whatever the graph library
      assigned and is treated as opaque. */
  datatype Node = Node(
    id: string,
    name: string,
    community: int,
    value: Option<real>,
    color: string,
    genre: seq<string>)

  datatype Link = Link(source: string, target: string)

  datatype Graph = Graph(nodes: seq<Node>, links: seq<Link>)

  /** The `{ nodes: [], links: [] }` a page starts with and resets to. */
  const Empty: Graph := Graph([], [])

  /** The first index holding a node with id `id`, or -1. */
  function FindIndex(nodes: seq<Node>, id: string): (r: int)
    ensures -1 <= r < |nodes|
    ensures r >= 0 ==> nodes[r].id == id && forall j :: 0 <= j < r ==> nodes[j].id != id
    ensures r == -1 <==> forall j :: 0 <= j < |nodes| ==> nodes[j].id != id
  {
    if nodes == [] then -1
    else if nodes[0].id == id then 0
    else
      var k := FindIndex(nodes[1..], id);
      if k == -1 then -1 else k + 1
  }

  /** The first node with id `id`, as `find` returns it; None stands for
      `undefined`. */
  function Find(nodes: seq<Node>, id: string): (r: Option<Node>)
    ensures r.Some? ==> r.value in nodes && r.value.id == id
    ensures r.Some? ==> FindIndex(nodes, id) >= 0 && r.value == nodes[FindIndex(nodes, id)]
    ensures r.None? <==> forall j :: 0 <= j < |nodes| ==> nodes[j].id != id
  {
    var k := FindIndex(nodes, id);
    if k == -1 then None else Some(nodes[k])
  }

  /** Every link endpoint names a node of the graph. */
  predicate Closed(g: Graph) {
    forall l :: l in g.links ==> Find(g.nodes, l.source).Some? && Find(g.nodes, l.target).Some?
  }

  /** No two nodes share an id. */
  predicate UniqueIds(nodes: seq<Node>) {
    forall i, j :: 0 <= i < |nodes| && 0 <= j < |nodes| && nodes[i].id == nodes[j].id ==> i == j
  }

  /** The ids the nodes carry. */
  ghost function NodeIds(nodes: seq<Node>): set<string> {
    set n | n in nodes :: n.id
  }

  /** Without its last node, a list of uniquely identified nodes has the ids
      of the whole list except the last node's, which the rest do not carry. */
  lemma NodeIdsInit(nodes: seq<Node>)
    requires UniqueIds(nodes) && nodes != []
    ensures UniqueIds(nodes[..|nodes| - 1])
    ensures nodes[|nodes| - 1].id !in NodeIds(nodes[..|nodes| - 1])
    ensures NodeIds(nodes[..|nodes| - 1]) == NodeIds(nodes) - {nodes[|nodes| - 1].id}
  {
    var init, last := nodes[..|nodes| - 1], nodes[|nodes| - 1];
    assert nodes == init + [last];
    forall n | n in init ensures n.id != last.id {
      var i :| 0 <= i < |init| && init[i] == n;
      assert nodes[i] == n;
    }
  }

  /** Uniquely identified nodes carry as many ids as there are nodes. */
  lemma {:induction false} UniqueIdsCount(nodes: seq<Node>)
    requires UniqueIds(nodes)
    ensures |NodeIds(nodes)| == |nodes|
    decreases |nodes|
  {
    if nodes == [] {
      assert NodeIds(nodes) == {};
    } else {
      var init := nodes[..|nodes| - 1];
      NodeIdsInit(nodes);
      UniqueIdsCount(init);
      assert NodeIds(nodes) == NodeIds(init) + {nodes[|nodes| - 1].id};
    }
  }

  /** The community label of each node, position by position. */
  function CommunityOf(nodes: seq<Node>): (r: seq<int>)
    ensures |r| == |nodes|
    ensures forall i :: 0 <= i < |nodes| ==> r[i] == nodes[i].community
  {
    if nodes == [] then [] else [nodes[0].community] + CommunityOf(nodes[1..])
  }

  /** The distinct community labels of the nodes, as a set. */
  ghost function CommunitySet(nodes: seq<Node>): set<int> {
    set n | n in nodes :: n.community
  }

  /** The distinct values of `s` as a JavaScript `Set` enumerates them:
      each once, at its first occurrence. */
  function Dedupe(s: seq<int>): seq<int> {
    if s == [] then []
    else
      var d := Dedupe(s[..|s| - 1]);
      if s[|s| - 1] in d then d else d + [s[|s| - 1]]
  }

  /** Deduplication keeps exactly the elements, each once. */
  lemma {:induction false} DedupeSpec(s: seq<int>)
    ensures Elements(Dedupe(s)) == Elements(s)
    ensures NoDup(Dedupe(s))
  {
    if s != [] {
      var init := s[..|s| - 1];
      var last := s[|s| - 1];
      var d := Dedupe(init);
      DedupeSpec(init);
      assert s == init + [last];
      assert Elements(s) == Elements(init) + {last};
      if last !in d {
        assert Elements(d + [last]) == Elements(d) + {last};
      }
    }
  }

  /** Inserts `x` into `t` before the first element `>= x`. */
  function InsertAscending(x: int, t: seq<int>): (r: seq<int>)
    ensures multiset(r) == multiset(t) + multiset{x}
    ensures |r| == |t| + 1
    ensures r[0] == x || (t != [] && r[0] == t[0])
  {
    if t == [] || x <= t[0] then [x] + t
    else
      assert t == [t[0]] + t[1..];
      [t[0]] + InsertAscending(x, t[1..])
  }

  /** Inserting into an ascending sequence keeps it ascending. */
  lemma {:induction false} InsertAscendingSorted(x: int, t: seq<int>)
    requires Ascending(t)
    ensures Ascending(InsertAscending(x, t))
  {
    if t != [] && x > t[0] {
      var tail := t[1..];
      var rest := InsertAscending(x, tail);
      var r := [t[0]] + rest;
      assert Ascending(tail) by {
        forall i, j | 0 <= i < j < |tail| ensures tail[i] <= tail[j] {
          assert tail[i] == t[i + 1] && tail[j] == t[j + 1];
        }
      }
      InsertAscendingSorted(x, tail);
      assert t[0] <= rest[0] by {
        assert rest[0] == x || rest[0] == t[1];
      }
      forall i, j | 0 <= i < j < |r| ensures r[i] <= r[j] {
        assert r[j] == rest[j - 1];
        if i == 0 {
          assert rest[0] <= rest[j - 1];
        } else {
          assert r[i] == rest[i - 1];
        }
      }
      assert InsertAscending(x, t) == r;
    }
  }

  /** Inserting a new element into a strictly ascending sequence keeps it
      strictly ascending. */
  lemma {:induction false} InsertAscendingStrict(x: int, t: seq<int>)
    requires StrictlyAscending(t) && x !in t
    ensures StrictlyAscending(InsertAscending(x, t))
  {
    if t != [] && x > t[0] {
      var tail := t[1..];
      var rest := InsertAscending(x, tail);
      var r := [t[0]] + rest;
      assert StrictlyAscending(tail) by {
        forall i, j | 0 <= i < j < |tail| ensures tail[i] < tail[j] {
          assert tail[i] == t[i + 1] && tail[j] == t[j + 1];
        }
      }
      assert x !in tail;
      InsertAscendingStrict(x, tail);
      assert t[0] < rest[0] by {
        assert rest[0] == x || rest[0] == t[1];
      }
      forall i, j | 0 <= i < j < |r| ensures r[i] < r[j] {
        assert r[j] == rest[j - 1];
        if i == 0 {
          assert j - 1 == 0 || rest[0] < rest[j - 1];
        } else {
          assert r[i] == rest[i - 1];
        }
      }
      assert InsertAscending(x, t) == r;
    } else if t != [] {
      assert x < t[0] by {
        assert x != t[0];
      }
    }
  }

  /** The numeric sort of the community labels: the integers of `s` in
      ascending order. */
  function SortAscending(s: seq<int>): seq<int> {
    if s == [] then [] else InsertAscending(s[0], SortAscending(s[1..]))
  }

  /** The sort is a permutation. */
  lemma {:induction false} SortAscendingPermutes(s: seq<int>)
    ensures multiset(SortAscending(s)) == multiset(s)
  {
    if s != [] {
      SortAscendingPermutes(s[1..]);
      assert s == [s[0]] + s[1..];
    }
  }

  /** The sort yields ascending order. */
  lemma {:induction false} SortAscendingSorted(s: seq<int>)
    ensures Ascending(SortAscending(s))
  {
    if s != [] {
      SortAscendingSorted(s[1..]);
      InsertAscendingSorted(s[0], SortAscending(s[1..]));
    }
  }

  /** Without duplicates the order is strictly ascending. */
  lemma {:induction false} SortAscendingStrict(s: seq<int>)
    requires NoDup(s)
    ensures StrictlyAscending(SortAscending(s))
  {
    if s != [] {
      var tail := s[1..];
      var rest := SortAscending(tail);
      assert NoDup(tail) by {
        forall i, j | 0 <= i < j < |tail| ensures tail[i] != tail[j] {
          assert tail[i] == s[i + 1] && tail[j] == s[j + 1];
        }
      }
      SortAscendingStrict(tail);
      assert s[0] !in rest by {
        SortAscendingPermutes(tail);
        assert s[0] !in tail by {
          forall i | 0 <= i < |tail| ensures tail[i] != s[0] {
            assert tail[i] == s[i + 1];
          }
        }
        assert s[0] !in multiset(tail);
      }
      InsertAscendingStrict(s[0], rest);
    }
  }

  /** The distinct communities of the nodes in ascending order: the list a
      page shows as "Community c" checkboxes or cards. */
  function AllCommunities(nodes: seq<Node>): seq<int> {
    SortAscending(Dedupe(CommunityOf(nodes)))
  }

  /** An empty dataset has no communities. */
  lemma NoCommunitiesOfEmpty()
    ensures AllCommunities([]) == []
  {
    assert CommunityOf([]) == [] && Dedupe([]) == [];
  }

  /** The community list holds each community of the nodes exactly once, in
      strictly ascending order, and nothing else. */
  lemma AllCommunitiesSpec(nodes: seq<Node>)
    ensures StrictlyAscending(AllCommunities(nodes))
    ensures Elements(AllCommunities(nodes)) == CommunitySet(nodes)
    ensures |AllCommunities(nodes)| == |CommunitySet(nodes)|
  {
    var cs := CommunityOf(nodes);
    var d := Dedupe(cs);
    var r := SortAscending(d);
    DedupeSpec(cs);
    SortAscendingPermutes(d);
    SortAscendingStrict(d);
    forall c ensures c in r <==> c in d {
      assert c in r <==> c in multiset(r);
      assert c in d <==> c in multiset(d);
    }
    assert Elements(r) == Elements(d);
    forall c ensures c in Elements(cs) <==> c in CommunitySet(nodes) {
      if c in Elements(cs) {
        var i :| 0 <= i < |cs| && cs[i] == c;
        assert nodes[i] in nodes;
      }
      if c in CommunitySet(nodes) {
        var n :| n in nodes && n.community == c;
        var i :| 0 <= i < |nodes| && nodes[i] == n;
        assert cs[i] == c;
      }
    }
    assert NoDup(r);
    NoDupCardinality(r);
  }

  /** The test "the node belongs to community `c`". */
  function InCommunity(c: int): Node -> bool {
    (n: Node) => n.community == c
  }

  /** The test "the node belongs to one of the communities `cs`". */
  function InCommunities(cs: set<int>): Node -> bool {
    (n: Node) => n.community in cs
  }

  /** The members of community `c`,
      in their original order. */
  function Members(nodes: seq<Node>, c: int): seq<Node> {
    Filter(nodes, InCommunity(c))
  }

  /** The number of members of community `c`. */
  function CommunitySize(nodes: seq<Node>, c: int): nat {
    |Members(nodes, c)|
  }

  /** The member list of `c` is exactly the nodes labelled `c`: each of them,
      as often as the dataset holds it, in the dataset's order, and no other. */
  lemma MembersSpec(nodes: seq<Node>, c: int)
    ensures forall n :: n in Members(nodes, c) ==> n.community == c
    ensures forall n ::
      multiset(Members(nodes, c))[n] == if n.community == c then multiset(nodes)[n] else 0
    ensures IsSubsequence(Members(nodes, c), nodes)
    ensures CommunitySize(nodes, c) <= |nodes|
  {
    FilterSubsequence(nodes, InCommunity(c));
    FilterMultiset(nodes, InCommunity(c));
  }

  /** A community label carried by some node has at least one member. */
  lemma {:induction false} MemberOfOwnCommunity(nodes: seq<Node>, n: Node)
    requires n in nodes
    ensures CommunitySize(nodes, n.community) >= 1
  {
    FilterMultiset(nodes, InCommunity(n.community));
    assert multiset(Members(nodes, n.community))[n] == multiset(nodes)[n];
    assert n in multiset(nodes);
  }

  /** The nodes whose community lies in `cs`. */
  function MembersIn(nodes: seq<Node>, cs: set<int>): seq<Node> {
    Filter(nodes, InCommunities(cs))
  }

  lemma MembersCons(x: Node, s: seq<Node>, c: int)
    ensures Members([x] + s, c) == (if x.community == c then [x] else []) + Members(s, c)
  {
    assert ([x] + s)[0] == x;
    assert ([x] + s)[1..] == s;
  }

  lemma MembersInCons(x: Node, s: seq<Node>, cs: set<int>)
    ensures MembersIn([x] + s, cs) == (if x.community in cs then [x] else []) + MembersIn(s, cs)
  {
    assert ([x] + s)[0] == x;
    assert ([x] + s)[1..] == s;
  }

  /** The size of each listed community, in list order. */
  function CommunitySizes(nodes: seq<Node>, cs: seq<int>): (r: seq<nat>)
    ensures |r| == |cs|
    ensures forall i :: 0 <= i < |cs| ==> r[i] == CommunitySize(nodes, cs[i])
  {
    if cs == [] then []
    else CommunitySizes(nodes, cs[..|cs| - 1]) + [CommunitySize(nodes, cs[|cs| - 1])]
  }

  function Sum(s: seq<nat>): nat {
    if s == [] then 0 else Sum(s[..|s| - 1]) + s[|s| - 1]
  }

  /** Counting the members of one more, new, community adds that community's
      size. */
  lemma {:induction false} MembersInAddOne(nodes: seq<Node>, cs: set<int>, c: int)
    requires c !in cs
    ensures |MembersIn(nodes, cs + {c})| == |MembersIn(nodes, cs)| + CommunitySize(nodes, c)
  {
    if nodes != [] {
      var x, rest := nodes[0], nodes[1..];
      MembersInCons(x, rest, cs);
      MembersInCons(x, rest, cs + {c});
      MembersCons(x, rest, c);
      assert nodes == [x] + rest;
      MembersInAddOne(rest, cs, c);
    }
  }

  /** The sizes of distinct communities add up to the number of nodes in
      those communities. */
  lemma {:induction false} SumOfSizes(nodes: seq<Node>, cs: seq<int>)
    requires NoDup(cs)
    ensures Sum(CommunitySizes(nodes, cs)) == |MembersIn(nodes, Elements(cs))|
  {
    if cs == [] {
      assert Elements(cs) == {};
      assert MembersIn(nodes, {}) == [] by {
        FilterMultiset(nodes, InCommunities({}));
        assert forall n :: multiset(MembersIn(nodes, {}))[n] == 0;
      }
    } else {
      var init := cs[..|cs| - 1];
      var last := cs[|cs| - 1];
      assert cs == init + [last];
      assert NoDup(init);
      SumOfSizes(nodes, init);
      assert CommunitySizes(nodes, cs)[..|cs| - 1] == CommunitySizes(nodes, init);
      assert Elements(cs) == Elements(init) + {last};
      MembersInAddOne(nodes, Elements(init), last);
    }
  }

  /** When `cs` covers every community of the nodes, every node is counted. */
  lemma {:induction false} MembersInAll(nodes: seq<Node>, cs: set<int>)
    requires CommunitySet(nodes) <= cs
    ensures |MembersIn(nodes, cs)| == |nodes|
  {
    if nodes != [] {
      assert nodes[0] in nodes;
      assert CommunitySet(nodes[1..]) <= CommunitySet(nodes) by {
        forall c | c in CommunitySet(nodes[1..]) ensures c in CommunitySet(nodes) {
          var n :| n in nodes[1..] && n.community == c;
          assert n in nodes;
        }
      }
      MembersInAll(nodes[1..], cs);
    }
  }

  /** The per-community sizes of the community list partition the nodes:
      they add up to the number of nodes. */
  lemma CommunitySizesPartition(nodes: seq<Node>)
    ensures Sum(CommunitySizes(nodes, AllCommunities(nodes))) == |nodes|
  {
    var cs := AllCommunities(nodes);
    AllCommunitiesSpec(nodes);
    SumOfSizes(nodes, cs);
    MembersInAll(nodes, Elements(cs));
  }
}
