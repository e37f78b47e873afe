/** The lyrical-analysis page: it loads the artists network of the selected
    decade and method, lists its communities as word-cloud cards, and shows
    one community in detail (its word cloud, member count, internal
    connections and member names). */
module TextAnalysis {
  import opened Seqs
  import opened Graph
  import Decades
  import opened Paths
  import opened Loader

  /** A link both of whose endpoints are nodes of community `c`. */
  predicate InternalLink(nodes: seq<Node>, l: Link, c: int) {
    && Find(nodes, l.source).Some? && Find(nodes, l.source).value.community == c
    && Find(nodes, l.target).Some? && Find(nodes, l.target).value.community == c
  }

  /** When the connection test reads `.community` of `undefined`: the
      source names no node, or it is in `c` (so `&&` goes on) and the target
      names no node. */
  predicate Throws(nodes: seq<Node>, l: Link, c: int) {
    || Find(nodes, l.source).None?
    || (Find(nodes, l.source).value.community == c && Find(nodes, l.target).None?)
  }

  /** The connection test: the source node's community is `c` and the
      target node's community is `c`, evaluated left to
      right with short-circuit `&&`; None stands for the TypeError. */
  function KeepLink(nodes: seq<Node>, l: Link, c: int): (r: Option<bool>)
    ensures r.None? <==> Throws(nodes, l, c)
    ensures r == Some(true) <==> InternalLink(nodes, l, c)
  {
    match Find(nodes, l.source)
    case None => None
    case Some(s) =>
      if s.community != c then Some(false)
      else match Find(nodes, l.target)
        case None => None
        case Some(t) => Some(t.community == c)
  }

  /** The links passing that test: the internal links of `c` in their
      order, or None when the test throws on some link. */
  function Connections(nodes: seq<Node>, links: seq<Link>, c: int): (r: Option<seq<Link>>)
    ensures r.None? <==> exists i :: 0 <= i < |links| && Throws(nodes, links[i], c)
    ensures r.Some? ==> |r.value| <= |links| && IsSubsequence(r.value, links)
  {
    if links == [] then Some([])
    else
      assert links == [links[0]] + links[1..];
      match KeepLink(nodes, links[0], c)
      case None => None
      case Some(keep) =>
        match Connections(nodes, links[1..], c)
        case None =>
          var i :| 0 <= i < |links[1..]| && Throws(nodes, links[1..][i], c);
          assert links[i + 1] == links[1..][i];
          None
        case Some(rest) =>
          var r := (if keep then [links[0]] else []) + rest;
          assert !exists i :: 0 <= i < |links| && Throws(nodes, links[i], c) by {
            forall i | 0 <= i < |links| ensures !Throws(nodes, links[i], c) {
              if i > 0 {
                assert links[i] == links[1..][i - 1];
              }
            }
          }
          assert IsSubsequence(r, links) by {
            if keep {
              assert r[0] == links[0] && r[1..] == rest;
            } else {
              assert r == rest;
            }
          }
          Some(r)
  }

  /** When the count does not throw, it keeps each internal link as often as
      the dataset lists it, and no other link. */
  lemma {:induction false} ConnectionsContent(nodes: seq<Node>, links: seq<Link>, c: int)
    requires Connections(nodes, links, c).Some?
    ensures forall l :: (multiset(Connections(nodes, links, c).value)[l] ==
      if InternalLink(nodes, l, c) then multiset(links)[l] else 0)
  {
    if links != [] {
      var tail := links[1..];
      assert links == [links[0]] + tail;
      var keep := KeepLink(nodes, links[0], c).value;
      var rest := Connections(nodes, tail, c).value;
      ConnectionsContent(nodes, tail, c);
      assert Connections(nodes, links, c).value == (if keep then [links[0]] else []) + rest;
      assert multiset(links) == multiset{links[0]} + multiset(tail);
      assert keep <==> InternalLink(nodes, links[0], c);
    }
  }

  /** In a graph whose links all name existing nodes the connection count
      never throws. */
  lemma ConnectionsOfClosed(g: Graph, c: int)
    requires Closed(g)
    ensures Connections(g.nodes, g.links, c).Some?
  {
    forall i | 0 <= i < |g.links| ensures !Throws(g.nodes, g.links[i], c) {
      assert g.links[i] in g.links;
    }
  }

  /** Every connection counted joins two members of the listed community. */
  lemma ConnectionsJoinMembers(nodes: seq<Node>, links: seq<Link>, c: int, l: Link)
    requires Connections(nodes, links, c).Some?
    requires l in Connections(nodes, links, c).value
    ensures l in links
    ensures Find(nodes, l.source).value in Members(nodes, c)
    ensures Find(nodes, l.target).value in Members(nodes, c)
  {
    var r := Connections(nodes, links, c).value;
    ConnectionsContent(nodes, links, c);
    assert l in multiset(r);
    var s, t := Find(nodes, l.source).value, Find(nodes, l.target).value;
    MembersSpec(nodes, c);
    assert multiset(Members(nodes, c))[s] == multiset(nodes)[s];
    assert multiset(Members(nodes, c))[t] == multiset(nodes)[t];
    assert s in multiset(nodes) && t in multiset(nodes);
  }

  /** The name of each node, position by position. */
  function Names(ns: seq<Node>): (r: seq<string>)
    ensures |r| == |ns|
    ensures forall i :: 0 <= i < |ns| ==> r[i] == ns[i].name
  {
    if ns == [] then [] else [ns[0].name] + Names(ns[1..])
  }

  /** A community card of the grid. */
  datatype Card = Card(community: int, wordCloud: string)

  /** The card grid: one card per community, in list order. */
  function Cards(base: string, m: Method, decade: string, cs: seq<int>): (r: seq<Card>)
    ensures |r| == |cs|
    ensures forall i :: 0 <= i < |cs| ==> r[i] == Card(cs[i], WordCloudPath(base, m, decade, cs[i]))
  {
    if cs == [] then [] else [Card(cs[0], WordCloudPath(base, m, decade, cs[0]))] + Cards(base, m, decade, cs[1..])
  }

  /** What the main section shows. `RenderThrows` is the detail view whose
      connection count reads `.community` of a missing node: the TypeError
      escapes the render, no error boundary catches it, and the page shows
      nothing. */
  datatype TextView =
    | Spinner
    | ErrorMessage(message: string)
    | RenderThrows
    | CommunityDetail(community: int, decade: string, wordCloud: string, memberCount: nat,
                      connections: nat, memberNames: seq<string>)
    | CommunityGrid(cards: seq<Card>)
    | NoCommunities

  class CommunityPage {
    const baseUrl: string
    var selectedDecade: string
    var communityMethod: Method
    var communities: seq<int>
    var fullData: Graph
    var selectedCommunity: Option<int>
    var loading: bool
    var error: Option<string>

    /** The decade is one of the table's, the community list is always the
        sorted distinct communities of the dataset held, and a selected
        community is one of them. */
    ghost predicate Valid()
      reads this
    {
      && Decades.IsDecadeId(selectedDecade)
      && communities == AllCommunities(fullData.nodes)
      && (selectedCommunity.Some? ==> selectedCommunity.value in communities)
    }

    /** The page mounts with its spinner already on. */
    constructor (baseUrl: string)
      ensures Valid()
      ensures this.baseUrl == baseUrl
      ensures selectedDecade == Decades.Initial && communityMethod == First
      ensures communities == [] && fullData == Empty && selectedCommunity == None
      ensures loading && error == None
    {
      this.baseUrl := baseUrl;
      selectedDecade := Decades.Initial;
      communityMethod := First;
      communities := [];
      fullData := Empty;
      selectedCommunity := None;
      loading := true;
      error := None;
      Decades.IndexOfId(6);
    }

    function DecadeIndex(): (r: int)
      reads this
      ensures -1 <= r < |Decades.Table|
      ensures r >= 0 ==> Decades.Table[r].id == selectedDecade
      ensures r == -1 <==> forall k :: 0 <= k < |Decades.Table| ==> Decades.Table[k].id != selectedDecade
    {
      Decades.IndexOf(selectedDecade)
    }

    /** The artists dataset of the selected method and decade. */
    function DataUrl(): string
      reads this
    {
      DataPath(baseUrl, Artists, communityMethod, selectedDecade)
    }

    /** The start of the load: the spinner is switched on, the error cleared
        and the dataset requested. */
    method BeginLoad() returns (url: string)
      requires Valid()
      modifies this`loading, this`error
      ensures Valid()
      ensures url == old(DataUrl())
      ensures loading && error == None
    {
      url := DataUrl();
      loading := true;
      error := None;
    }

    /** The end of `load`: success takes the dataset and its communities;
        failure records the message and empties both; `finally` clears the
        spinner and the selection. */
    method Settle(outcome: FetchOutcome)
      requires Valid()
      modifies this`fullData, this`communities, this`error, this`loading, this`selectedCommunity
      ensures Valid()
      ensures !loading && selectedCommunity == None
      ensures Resolve(outcome).Ok? ==>
        && fullData == Resolve(outcome).value
        && communities == AllCommunities(fullData.nodes)
        && error == old(error)
      ensures Resolve(outcome).Err? ==>
        error == Some(Resolve(outcome).error) && communities == [] && fullData == Empty
      ensures selectedDecade == old(selectedDecade) && communityMethod == old(communityMethod)
    {
      var r := Resolve(outcome);
      if r.Ok? {
        fullData := r.value;
        communities := AllCommunities(r.value.nodes);
      } else {
        error := Some(r.error);
        communities := [];
        fullData := Empty;
        NoCommunitiesOfEmpty();
      }
      loading := false;
      selectedCommunity := None;
    }

    /** The decade arrows. */
    method NavigateDecade(delta: int)
      requires Valid()
      modifies this`selectedDecade
      ensures Valid()
      ensures DecadeIndex() == Decades.Navigate(old(DecadeIndex()), delta)
    {
      var idx := DecadeIndex() + delta;
      if 0 <= idx < |Decades.Table| {
        selectedDecade := Decades.Table[idx].id;
        Decades.IndexOfId(idx);
      }
    }

    method SetMethod(m: Method)
      requires Valid()
      modifies this`communityMethod
      ensures Valid()
      ensures communityMethod == m
    {
      communityMethod := m;
    }

    /** A card's `onClick`; cards exist only for listed communities. */
    method SelectCommunity(c: int)
      requires Valid() && c in communities
      modifies this`selectedCommunity
      ensures Valid()
      ensures selectedCommunity == Some(c)
    {
      selectedCommunity := Some(c);
    }

    /** The "Back to Communities" button. */
    method BackToCommunities()
      requires Valid()
      modifies this`selectedCommunity
      ensures Valid()
      ensures selectedCommunity == None
    {
      selectedCommunity := None;
    }

    /** The main section: spinner, then a (truthy) error, then the selected
        community (unless counting its connections throws), then the card
        grid or its empty message. */
    function View(): (r: TextView)
      reads this
      ensures r.Spinner? <==> loading
      ensures r.ErrorMessage? <==> !loading && Shows(error)
      ensures r.ErrorMessage? ==> r.message == error.value
      ensures r.RenderThrows? <==>
        !loading && !Shows(error) && selectedCommunity.Some? &&
        Connections(fullData.nodes, fullData.links, selectedCommunity.value).None?
      ensures r.CommunityDetail? <==>
        !loading && !Shows(error) && selectedCommunity.Some? &&
        Connections(fullData.nodes, fullData.links, selectedCommunity.value).Some?
      ensures r.CommunityGrid? <==>
        !loading && !Shows(error) && selectedCommunity.None? && communities != []
      ensures r.NoCommunities? <==>
        !loading && !Shows(error) && selectedCommunity.None? && communities == []
      ensures r.CommunityDetail? ==>
        var c := selectedCommunity.value;
        && r.community == c && r.decade == selectedDecade
        && r.wordCloud == WordCloudPath(baseUrl, communityMethod, selectedDecade, c)
        && r.memberCount == CommunitySize(fullData.nodes, c)
        && r.memberNames == Names(Members(fullData.nodes, c))
        && r.connections == |Connections(fullData.nodes, fullData.links, c).value|
        && r.connections <= |fullData.links|
      ensures r.CommunityGrid? ==>
        r.cards == Cards(baseUrl, communityMethod, selectedDecade, communities)
    {
      if loading then Spinner
      else if Shows(error) then ErrorMessage(error.value)
      else if selectedCommunity.Some? then
        var c := selectedCommunity.value;
        var members := Members(fullData.nodes, c);
        match Connections(fullData.nodes, fullData.links, c)
        case None => RenderThrows
        case Some(conns) =>
          CommunityDetail(c, selectedDecade, WordCloudPath(baseUrl, communityMethod, selectedDecade, c),
                          |members|, |conns|, Names(members))
      else if communities != [] then CommunityGrid(Cards(baseUrl, communityMethod, selectedDecade, communities))
      else NoCommunities
    }
  }

  /** A community shown in detail has at least one member and its list
      names exactly its members; its connection count is the number of links
      joining two of those members. */
  lemma DetailHasMembers(p: CommunityPage)
    requires p.Valid() && p.View().CommunityDetail?
    ensures p.View().memberCount >= 1
    ensures |p.View().memberNames| == p.View().memberCount
    ensures p.View().connections ==
      |Connections(p.fullData.nodes, p.fullData.links, p.View().community).value|
  {
    var c := p.selectedCommunity.value;
    AllCommunitiesSpec(p.fullData.nodes);
    assert c in Elements(p.communities);
    var n :| n in p.fullData.nodes && n.community == c;
    MemberOfOwnCommunity(p.fullData.nodes, n);
  }

  /** On a dataset whose links all name existing nodes, selecting a
      community never makes the page throw. */
  lemma ClosedNeverThrows(p: CommunityPage)
    requires Closed(p.fullData)
    ensures !p.View().RenderThrows?
  {
    if p.selectedCommunity.Some? {
      ConnectionsOfClosed(p.fullData, p.selectedCommunity.value);
    }
  }

  /** The dangling-target case: a link from a member of the selected
      community to an id no node carries makes the page throw. */
  lemma DanglingLinkThrows(p: CommunityPage, i: nat)
    requires !p.loading && !Shows(p.error) && p.selectedCommunity.Some?
    requires i < |p.fullData.links|
    requires Find(p.fullData.nodes, p.fullData.links[i].source).Some?
    requires Find(p.fullData.nodes, p.fullData.links[i].source).value.community == p.selectedCommunity.value
    requires Find(p.fullData.nodes, p.fullData.links[i].target).None?
    ensures p.View().RenderThrows?
  {
    assert Throws(p.fullData.nodes, p.fullData.links[i], p.selectedCommunity.value);
  }

  /** Distinct cards show distinct word clouds: the communities are strictly
      ascending and a word-cloud path determines its community. */
  lemma GridCardsDistinct(p: CommunityPage)
    requires p.Valid() && p.View().CommunityGrid?
    ensures forall i, j :: 0 <= i < j < |p.View().cards| ==>
      p.View().cards[i].community < p.View().cards[j].community &&
      p.View().cards[i].wordCloud != p.View().cards[j].wordCloud
  {
    var cards := p.View().cards;
    AllCommunitiesSpec(p.fullData.nodes);
    Decades.DecadeIdLength(p.selectedDecade);
    forall i, j | 0 <= i < j < |cards|
      ensures cards[i].community < cards[j].community && cards[i].wordCloud != cards[j].wordCloud
    {
      var ci, cj := p.communities[i], p.communities[j];
      WordCloudPathInjective(p.baseUrl, p.communityMethod, p.selectedDecade, ci,
                             p.communityMethod, p.selectedDecade, cj);
    }
  }

  /** A failed load shows its message when the message is non-empty, and the
      empty-grid message otherwise (the empty string is falsy). */
  lemma FailedLoadView(p: CommunityPage)
    requires !p.loading && p.selectedCommunity.None? && p.communities == [] && p.error.Some?
    ensures p.error.value != "" ==> p.View() == ErrorMessage(p.error.value)
    ensures p.error.value == "" ==> p.View() == NoCommunities
  {
  }
}
