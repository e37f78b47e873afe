/** The graph component: which placeholder it renders, which nodes and
    links it highlights for a list of communities, and the node selected by
    a click. The force simulation, canvas drawing and camera calls belong to
    the graph library and are not modelled. */
module NetworkVisualization {
  import opened Seqs
  import opened Graph
  import Loader

  /** What the component returns, checked in this order. */
  datatype Screen = LoadingScreen | ErrorScreen(message: string) | NoData | GraphScreen

  function RenderGate(loading: bool, error: Option<string>, g: Graph): (r: Screen)
    ensures r.LoadingScreen? <==> loading
    ensures r.ErrorScreen? <==> !loading && Loader.Shows(error)
    ensures r.ErrorScreen? ==> r.message == error.value
    ensures r.NoData? <==> !loading && !Loader.Shows(error) && g.nodes == []
    ensures r.GraphScreen? <==> !loading && !Loader.Shows(error) && g.nodes != []
  {
    if loading then LoadingScreen
    else if Loader.Shows(error) then ErrorScreen(error.value)
    else if g.nodes == [] then NoData
    else GraphScreen
  }

  /** A node is highlighted when the highlight list is empty or names its
      community. */
  predicate IsHighlighted(highlight: seq<int>, n: Node) {
    |highlight| == 0 || n.community in highlight
  }

  /** The grey of a node outside the highlighted communities. */
  const DimFill: string := "rgba(200,200,200,0.2)"

  /** How a node is painted: its fill and, if any, the label (`caption`) drawn under it. */
  datatype Paint = Paint(fill: string, caption: Option<string>)

  /** A node is labelled exactly when nothing is highlighted or its community
      is; a labelled node keeps the colour the library gave it and shows its
      name, any other node is grey. */
  function PaintNode(highlight: seq<int>, n: Node): (r: Paint)
    ensures r.caption.Some? <==> |highlight| == 0 || n.community in highlight
    ensures r.caption.Some? ==> r.fill == n.color && r.caption.value == n.name
    ensures r.caption.None? ==> r.fill == DimFill
  {
    if IsHighlighted(highlight, n) then Paint(n.color, Some(n.name)) else Paint(DimFill, None)
  }

  /** The test "the node is drawn with its label". */
  function Labelled(highlight: seq<int>): Node -> bool {
    (n: Node) => PaintNode(highlight, n).caption.Some?
  }

  /** Over a whole dataset: with nothing highlighted every node is labelled;
      otherwise the labelled nodes are exactly the members of the highlighted
      communities, in dataset order, and every other node is grey. */
  lemma {:induction false} PaintedNodes(highlight: seq<int>, nodes: seq<Node>)
    ensures Filter(nodes, Labelled(highlight)) ==
      if |highlight| == 0 then nodes else MembersIn(nodes, Elements(highlight))
    ensures forall n :: n in nodes && n !in Filter(nodes, Labelled(highlight)) ==>
      PaintNode(highlight, n) == Paint(DimFill, None)
  {
    if nodes != [] {
      var x, tail := nodes[0], nodes[1..];
      assert nodes == [x] + tail;
      PaintedNodes(highlight, tail);
      FilterCons(x, tail, Labelled(highlight));
      MembersInCons(x, tail, Elements(highlight));
      assert x.community in Elements(highlight) <==> x.community in highlight;
    }
    forall n | n in nodes && n !in Filter(nodes, Labelled(highlight))
      ensures PaintNode(highlight, n) == Paint(DimFill, None)
    {
      FilterMultiset(nodes, Labelled(highlight));
      assert n in multiset(nodes);
      assert n !in multiset(Filter(nodes, Labelled(highlight)));
    }
  }

  /** The community of the node an endpoint id names: the first node with
      that id, as a lookup by `find` returns it, and None (`undefined`) when
      no node has the id. */
  function EndpointCommunity(nodes: seq<Node>, id: string): (r: Option<int>)
    ensures r.None? <==> Find(nodes, id).None?
    ensures r.Some? ==> FindIndex(nodes, id) >= 0 && r.value == nodes[FindIndex(nodes, id)].community
  {
    match Find(nodes, id)
    case None => None
    case Some(n) => Some(n.community)
  }

  /** Membership of a looked-up community in the highlight list; the list
      holds only numbers, so an `undefined` community is never in it. */
  predicate Includes(highlight: seq<int>, c: Option<int>) {
    c.Some? && c.value in highlight
  }

  /** The `both` test of the link colouring: nothing is highlighted, or both
      endpoint communities are. */
  predicate LinkFull(highlight: seq<int>, nodes: seq<Node>, l: Link) {
    |highlight| == 0 ||
    (Includes(highlight, EndpointCommunity(nodes, l.source)) &&
     Includes(highlight, EndpointCommunity(nodes, l.target)))
  }

  const FullLinkColor: string := "rgba(180,180,180,0.6)"
  const DimLinkColor: string := "rgba(180,180,180,0.1)"

  /** A link is drawn in one of two greys. With nothing highlighted it is
      drawn in full. Between existing nodes it is full exactly when both
      endpoint nodes are highlighted ones. Once something is highlighted, a
      link whose source or target names no node is dimmed. */
  function LinkColor(highlight: seq<int>, nodes: seq<Node>, l: Link): (r: string)
    ensures r == FullLinkColor || r == DimLinkColor
    ensures |highlight| == 0 ==> r == FullLinkColor
    ensures Find(nodes, l.source).Some? && Find(nodes, l.target).Some? ==>
      (r == FullLinkColor <==>
         |highlight| == 0 ||
         (IsHighlighted(highlight, Find(nodes, l.source).value) &&
          IsHighlighted(highlight, Find(nodes, l.target).value)))
    ensures |highlight| > 0 && (Find(nodes, l.source).None? || Find(nodes, l.target).None?) ==>
      r == DimLinkColor
  {
    if LinkFull(highlight, nodes, l) then FullLinkColor else DimLinkColor
  }

  /** Once the layout starts, the graph library replaces each link's endpoint
      ids by the node objects they name. An endpoint is then either still an
      id or a node. */
  datatype Endpoint = IdOf(id: string) | NodeObject(node: Node)

  datatype LiveLink = LiveLink(source: Endpoint, target: Endpoint)

  /** The endpoint lookup as written: it compares each node's id with the
      endpoint, and a node object never equals an id string. */
  function LiveCommunityAsWritten(nodes: seq<Node>, e: Endpoint): (r: Option<int>)
    ensures e.NodeObject? ==> r.None?
    ensures e.IdOf? ==> r == EndpointCommunity(nodes, e.id)
  {
    match e
    case IdOf(id) => EndpointCommunity(nodes, id)
    case NodeObject(_) => None
  }

  /** The link colouring as written, applied to a link the library has
      rewritten. */
  function LiveLinkColorAsWritten(highlight: seq<int>, nodes: seq<Node>, l: LiveLink): (r: string)
    ensures r == FullLinkColor || r == DimLinkColor
    ensures |highlight| == 0 ==> r == FullLinkColor
    ensures |highlight| > 0 && (l.source.NodeObject? || l.target.NodeObject?) ==> r == DimLinkColor
  {
    if |highlight| == 0 ||
       (Includes(highlight, LiveCommunityAsWritten(nodes, l.source)) &&
        Includes(highlight, LiveCommunityAsWritten(nodes, l.target)))
    then FullLinkColor else DimLinkColor
  }

  /** As written, once the layout has started and some community is
      highlighted, every link is dimmed, even one between two highlighted
      nodes. */
  lemma StartedLinksAllDimmed(highlight: seq<int>, nodes: seq<Node>, l: LiveLink)
    requires |highlight| > 0 && l.source.NodeObject?
    ensures LiveLinkColorAsWritten(highlight, nodes, l) == DimLinkColor
  {
  }

  /** The concrete case: communities `[1]` highlighted, a link between two
      nodes of community 1, rewritten by the library, is dimmed. */
  lemma StartedLinkBetweenHighlightedDimmed()
    ensures
      var a := Node("a", "A", 1, None, "red", []);
      var b := Node("b", "B", 1, None, "red", []);
      && IsHighlighted([1], a) && IsHighlighted([1], b)
      && LiveLinkColorAsWritten([1], [a, b], LiveLink(NodeObject(a), NodeObject(b))) == DimLinkColor
  {
    var a := Node("a", "A", 1, None, "red", []);
    var b := Node("b", "B", 1, None, "red", []);
    StartedLinksAllDimmed([1], [a, b], LiveLink(NodeObject(a), NodeObject(b)));
  }

  /** The lookup as intended: an endpoint that is already a node gives that
      node's community. */
  function LiveCommunity(nodes: seq<Node>, e: Endpoint): (r: Option<int>)
    ensures e.NodeObject? ==> r == Some(e.node.community)
    ensures e.IdOf? ==> r == EndpointCommunity(nodes, e.id)
  {
    match e
    case IdOf(id) => EndpointCommunity(nodes, id)
    case NodeObject(n) => Some(n.community)
  }

  /** The link colouring as intended, for links before or after the rewrite. */
  function LiveLinkColor(highlight: seq<int>, nodes: seq<Node>, l: LiveLink): (r: string)
    ensures r == FullLinkColor || r == DimLinkColor
    ensures |highlight| == 0 ==> r == FullLinkColor
    ensures l.source.NodeObject? && l.target.NodeObject? ==>
      (r == FullLinkColor <==>
         |highlight| == 0 ||
         (IsHighlighted(highlight, l.source.node) && IsHighlighted(highlight, l.target.node)))
  {
    if |highlight| == 0 ||
       (Includes(highlight, LiveCommunity(nodes, l.source)) &&
        Includes(highlight, LiveCommunity(nodes, l.target)))
    then FullLinkColor else DimLinkColor
  }

  /** With unique node ids the intended colouring of a rewritten link is the
      colouring `LinkColor` gives the original link: the rewrite changes
      nothing on screen. */
  lemma LiveLinkColorAgrees(highlight: seq<int>, nodes: seq<Node>, l: Link, s: Node, t: Node)
    requires UniqueIds(nodes)
    requires s in nodes && s.id == l.source && t in nodes && t.id == l.target
    ensures LiveLinkColor(highlight, nodes, LiveLink(NodeObject(s), NodeObject(t))) ==
            LinkColor(highlight, nodes, l)
  {
    FindUnique(nodes, s);
    FindUnique(nodes, t);
  }

  /** With unique ids, looking up a node's id finds that node. */
  lemma FindUnique(nodes: seq<Node>, n: Node)
    requires UniqueIds(nodes) && n in nodes
    ensures Find(nodes, n.id) == Some(n)
  {
    var i :| 0 <= i < |nodes| && nodes[i] == n;
    assert FindIndex(nodes, n.id) != -1;
  }

  /** The side panel for the selected node: its name, and its genres when
      it has any. */
  datatype SidePanel = SidePanel(name: string, genres: Option<seq<string>>)

  function PanelFor(selected: Option<Node>): (r: Option<SidePanel>)
    ensures r.Some? <==> selected.Some?
    ensures r.Some? ==> r.value.name == selected.value.name
    ensures r.Some? ==> (r.value.genres.Some? <==> |selected.value.genre| > 0)
    ensures r.Some? && r.value.genres.Some? ==> r.value.genres.value == selected.value.genre
  {
    match selected
    case None => None
    case Some(n) => Some(SidePanel(n.name, if |n.genre| > 0 then Some(n.genre) else None))
  }

  /** The component's own state: the node last clicked, until Close. */
  class Visualization {
    var selectedNode: Option<Node>

    constructor ()
      ensures selectedNode == None
    {
      selectedNode := None;
    }

    /** `onNodeClick`: selects the clicked node, whatever was selected
        before (clicking the selected node again keeps it selected). */
    method ClickNode(n: Node)
      modifies this
      ensures selectedNode == Some(n)
    {
      selectedNode := Some(n);
    }

    /** The panel's Close button. */
    method Close()
      modifies this
      ensures selectedNode == None
    {
      selectedNode := None;
    }

    /** What is on screen for the given props: the gate's screen, and the
        side panel, which exists only beside a drawn graph. */
    function Rendered(loading: bool, error: Option<string>, g: Graph): (r: (Screen, Option<SidePanel>))
      reads this
      ensures r.0 == RenderGate(loading, error, g)
      ensures r.1.Some? <==> r.0.GraphScreen? && selectedNode.Some?
      ensures r.1.Some? ==> r.1 == PanelFor(selectedNode)
    {
      var screen := RenderGate(loading, error, g);
      (screen, if screen.GraphScreen? then PanelFor(selectedNode) else None)
    }
  }
}
