/** The network explorer page: the selectors (decade, network type, method,
    search text, highlighted communities), the loader that fetches the
    selected dataset, and the derived community list and statistics. */
module NetworkExplorer {
  import opened Seqs
  import opened Graph
  import Decades
  import opened Paths
  import opened Loader
  import Statistics
  import NetworkVisualization

  /** The test "the value is not `c`". */
  function Other(c: int): int -> bool {
    (x: int) => x != c
  }

  /** The list without any occurrence of `c`, the rest in order. */
  function Without(sc: seq<int>, c: int): seq<int> {
    Filter(sc, Other(c))
  }

  lemma WithoutCons(x: int, sc: seq<int>, c: int)
    ensures Without([x] + sc, c) == (if x != c then [x] else []) + Without(sc, c)
  {
    assert ([x] + sc)[0] == x;
    assert ([x] + sc)[1..] == sc;
  }

  /** The community check box toggle: a present community is removed, every occurrence of it, the rest
      keeping their order and multiplicity; an absent one is appended. */
  function Toggle(sc: seq<int>, c: int): (r: seq<int>)
    ensures c in sc ==> c !in r
    ensures c in sc ==> IsSubsequence(r, sc)
    ensures c in sc ==> forall x :: x != c ==> multiset(r)[x] == multiset(sc)[x]
    ensures c !in sc ==> r == sc + [c]
  {
    if c in sc then
      var r := Without(sc, c);
      assert c !in multiset(r);
      FilterSubsequence(sc, Other(c));
      FilterMultiset(sc, Other(c));
      r
    else sc + [c]
  }

  /** Toggling flips the membership of `c` and of nothing else. */
  lemma ToggleFlipsMembership(sc: seq<int>, c: int)
    ensures c in Toggle(sc, c) <==> c !in sc
    ensures forall x :: x != c ==> (x in Toggle(sc, c) <==> x in sc)
  {
    if c in sc {
      forall x | x != c ensures x in Toggle(sc, c) <==> x in sc {
        assert x in Toggle(sc, c) <==> x in multiset(Toggle(sc, c));
        assert x in sc <==> x in multiset(sc);
      }
    }
  }

  /** Removing a community that is not in the list gives the list back. */
  lemma {:induction false} WithoutAbsent(sc: seq<int>, c: int)
    requires c !in sc
    ensures Without(sc + [c], c) == sc
  {
    if sc == [] {
      WithoutCons(c, [], c);
      assert Without([], c) == [];
    } else {
      assert sc + [c] == [sc[0]] + (sc[1..] + [c]);
      WithoutCons(sc[0], sc[1..] + [c], c);
      WithoutAbsent(sc[1..], c);
      assert sc == [sc[0]] + sc[1..];
    }
  }

  /** Checking and unchecking a community restores the highlight list. */
  lemma ToggleTwiceRestores(sc: seq<int>, c: int)
    requires c !in sc
    ensures Toggle(Toggle(sc, c), c) == sc
  {
    assert c in sc + [c];
    WithoutAbsent(sc, c);
  }

  class Explorer {
    const baseUrl: string
    var selectedDecade: string
    var networkType: NetworkType
    var communityMethod: Method
    var searchQuery: string
    var showFilters: bool
    var selectedComms: seq<int>
    var graphData: Graph
    var loading: bool
    var error: Option<string>

    /** The selected decade is one of the table's. */
    ghost predicate Valid()
      reads this
    {
      Decades.IsDecadeId(selectedDecade)
    }

    constructor (baseUrl: string)
      ensures Valid()
      ensures this.baseUrl == baseUrl
      ensures selectedDecade == Decades.Initial && networkType == Writers && communityMethod == First
      ensures searchQuery == "" && !showFilters && selectedComms == []
      ensures graphData == Empty && !loading && error == None
    {
      this.baseUrl := baseUrl;
      selectedDecade := Decades.Initial;
      networkType := Writers;
      communityMethod := First;
      searchQuery := "";
      showFilters := false;
      selectedComms := [];
      graphData := Empty;
      loading := false;
      error := None;
      Decades.IndexOfId(6);
    }

    function DecadeIndex(): (r: int)
      reads this
      ensures -1 <= r < |Decades.Table|
      ensures r >= 0 ==> Decades.Table[r].id == selectedDecade
      ensures r == -1 <==> forall k :: 0 <= k < |Decades.Table| ==> Decades.Table[k].id != selectedDecade
    {
      Decades.IndexOf(selectedDecade)
    }

    /** The communities offered as check boxes: each community of the
        dataset once, in ascending order. */
    function AllComms(): (r: seq<int>)
      reads this
      ensures StrictlyAscending(r)
      ensures Elements(r) == CommunitySet(graphData.nodes)
    {
      AllCommunitiesSpec(graphData.nodes);
      AllCommunities(graphData.nodes)
    }

    /** `stats`: computed from `graphData` alone. */
    function Stats(): Statistics.Stats
      reads this
    {
      Statistics.StatsOf(graphData)
    }

    /** The file the loader fetches for the current selectors. */
    function DataFile(): string
      reads this
    {
      DataPath(baseUrl, networkType, communityMethod, selectedDecade)
    }

    /** The props handed to the graph component: the unfiltered dataset,
        the loader state, and the highlighted communities. The search text
        is not among them. */
    function GraphProps(): (Graph, bool, Option<string>, seq<int>)
      reads this
    {
      (graphData, loading, error, selectedComms)
    }

    /** What the graph component shows. */
    function Screen(): NetworkVisualization.Screen
      reads this
    {
      NetworkVisualization.RenderGate(loading, error, graphData)
    }

    /** The start of the load effect: the spinner is switched on, the error
        cleared and the file requested. Returns the requested file. */
    method BeginLoad() returns (file: string)
      requires Valid()
      modifies this
      ensures Valid()
      ensures file == old(DataFile())
      ensures loading && error == None
      ensures graphData == old(graphData) && selectedComms == old(selectedComms)
      ensures selectedDecade == old(selectedDecade) && networkType == old(networkType)
      ensures communityMethod == old(communityMethod) && searchQuery == old(searchQuery) && showFilters == old(showFilters)
      ensures Screen().LoadingScreen?
    {
      file := DataFile();
      loading := true;
      error := None;
    }

    /** The end of the load effect: success replaces the dataset; failure
        records the message and keeps the previous dataset; either way
        `finally` clears `loading`. */
    method Settle(outcome: FetchOutcome)
      requires Valid()
      modifies this
      ensures Valid()
      ensures !loading
      ensures Resolve(outcome).Ok? ==> graphData == Resolve(outcome).value && error == old(error)
      ensures Resolve(outcome).Err? ==> error == Some(Resolve(outcome).error) && graphData == old(graphData)
      ensures selectedComms == old(selectedComms) && selectedDecade == old(selectedDecade)
      ensures networkType == old(networkType) && communityMethod == old(communityMethod)
      ensures searchQuery == old(searchQuery) && showFilters == old(showFilters)
      ensures outcome.Response? && !StatusOk(outcome.status) ==>
        Screen() == NetworkVisualization.ErrorScreen(HttpError(outcome.status))
    {
      var r := Resolve(outcome);
      if r.Ok? {
        graphData := r.value;
      } else {
        error := Some(r.error);
      }
      loading := false;
      if outcome.Response? && !StatusOk(outcome.status) {
        HttpErrorRoundTrip(outcome.status);
      }
    }

    /** A checkbox's `onChange`: toggles `c` in the highlight list. The
        dataset, and so the statistics, are untouched. */
    method ToggleComm(c: int)
      requires Valid()
      modifies this`selectedComms
      ensures Valid()
      ensures selectedComms == Toggle(old(selectedComms), c)
      ensures Stats() == old(Stats())
    {
      selectedComms := Toggle(selectedComms, c);
    }

    /** The search box's `onChange`. The text reaches neither the graph
        component nor the statistics. */
    method SetSearchQuery(q: string)
      requires Valid()
      modifies this`searchQuery
      ensures Valid()
      ensures searchQuery == q
      ensures GraphProps() == old(GraphProps()) && Stats() == old(Stats())
    {
      searchQuery := q;
    }

    /** The filter button: shows or hides the community checkboxes. */
    method ToggleFilters()
      requires Valid()
      modifies this`showFilters
      ensures Valid()
      ensures showFilters == !old(showFilters)
    {
      showFilters := !showFilters;
    }

    method SetNetworkType(t: NetworkType)
      requires Valid()
      modifies this`networkType
      ensures Valid()
      ensures networkType == t
    {
      networkType := t;
    }

    method SetMethod(m: Method)
      requires Valid()
      modifies this`communityMethod
      ensures Valid()
      ensures communityMethod == m
    {
      communityMethod := m;
    }

    /** The decade arrows: move to the decade `delta` rows away when there
        is one, and otherwise stays. */
    method NavDecade(delta: int)
      requires Valid()
      modifies this`selectedDecade
      ensures Valid()
      ensures DecadeIndex() == Decades.Navigate(old(DecadeIndex()), delta)
    {
      var idx := DecadeIndex() + delta;
      if 0 <= idx < |Decades.Table| {
        selectedDecade := Decades.Table[idx].id;
        Decades.IndexOfId(idx);
      }
    }
  }
}
