# Grammy collaboration network explorer — a Dafny model of its data logic

The site presents precomputed collaboration networks of Grammy-nominated
writers and artists. Each network is a JSON dataset of nodes and links.
Every node carries a community label from upstream community detection.
Three pieces of the site hold nearly all of its logic, and this project
models them:

- **The network explorer page** (`NetworkExplorer` module, class `Explorer`).
  It has selectors for decade, network type (writers or artists), community
  method (first release or mode of release), a search box, and check boxes
  of highlighted communities. A loader fetches the dataset the selectors
  name. The page derives from the dataset the sorted list of distinct
  communities and a statistics panel: node and link counts, the average
  number of connections, density, the number of communities, the size of
  the largest community, and the five nodes of highest value.
- **The lyrical-analysis page** (`TextAnalysis` module, class
  `CommunityPage`). It loads the artists network of a decade and method and
  shows its communities as word-cloud cards. A selected community is shown
  in detail: its word cloud, how many members it has, how many links lie
  inside it, and the names of its members.
- **The graph component** (`NetworkVisualization` module, class
  `Visualization`). It chooses between a loading placeholder, an error, an
  empty-data placeholder and the graph. It paints each node and link full
  or dimmed according to the highlighted communities. It keeps the node
  last clicked and shows a side panel for it.

The modules they share:

- `Seqs`: Option/Result and the `filter` of JavaScript arrays.
- `Graph`: nodes, links, `find`, the community enumeration and community
  members.
- `Decades`: the seven decade buckets and the bounded previous/next
  navigation.
- `Paths`: the data and word-cloud paths, and JavaScript's decimal
  rendering of integers in template strings.
- `Loader`: how a `fetch` promise chain settles.
- `Statistics`: the statistics panel.

Page state is modelled as classes. Each React `useState` hook is a field,
and each setter call is a method that changes only the fields it names.
`import.meta.env.BASE_URL` is a constructor parameter (`baseUrl`). The
network is not modelled: how a request ends is an input (`FetchOutcome`),
which the page's `Settle` method consumes. Each load effect is split into
`BeginLoad` (loading on, error cleared, the URL requested) and `Settle`
(the promise chain's result and its `finally`); calling `BeginLoad` is
left to the caller, since React fires the effect only when one of its
dependencies actually changed. JavaScript semantics that
matter are written out:

- `x || 0` on a missing value.
- `Math.max()` of no arguments is `-Infinity` (`Statistics.Largest`).
- An empty error string is falsy and shows nothing (`Loader.Shows`).
- `find` gives `undefined` (`None`).
- `res.ok` means a status from 200 to 299.
- `Array.prototype.sort` is stable.
- The short-circuit `&&` in the connection count may read `.community` of
  `undefined`, and that TypeError is modelled as `None`.

Behaviour of the code worth knowing, which the model follows:

- The data files use the tokens `writers`/`artists`.
- On a failed load the explorer keeps its previous dataset. Only the
  lyrical-analysis page resets to the empty dataset.
- Neither page guards against stale responses, and the highlighted
  communities are not reset when a new dataset arrives.
- A link is drawn at full opacity when nothing is highlighted or when
  **both** of its endpoints are in highlighted communities.
- A node click always selects that node. It never toggles the selection,
  and the selection is not cleared when the data changes.
- The search text is stored but filters nothing. It reaches neither the
  graph nor the statistics.

## Model

| member | source | states |
|---|---|---|
| Seqs.Filter | src/pages/TextAnalysis.jsx:163-164 | a filtered array is no longer than the input and holds only elements that pass the test |
| Seqs.FilterMember | src/pages/TextAnalysis.jsx:163-164 | whatever a filter keeps comes from its input and passes the test |
| Seqs.FilterMultiset | src/pages/TextAnalysis.jsx:163-164 | filtering keeps every passing element exactly as often as the input holds it, and drops every failing element |
| Seqs.FilterSubsequence | src/pages/TextAnalysis.jsx:163-164 | a filtered array keeps its elements in the input's order (it is a subsequence) |
| Seqs.FilterAppend | src/pages/NetworkExplorer.jsx:78-80 | filtering distributes over concatenation |
| Seqs.FilterPrefix | src/pages/NetworkExplorer.jsx:78-80 | filtering a prefix gives a prefix of the filtered whole |
| Seqs.Take | src/pages/NetworkExplorer.jsx:80 | `slice(0, k)` gives a prefix of length min(k, n) |
| Seqs.NoDupCardinality | src/pages/NetworkExplorer.jsx:73 | a list without duplicates has as many entries as distinct values |
| Seqs.SubsetCardinality | src/pages/NetworkExplorer.jsx:72 | a subset has at most as many elements as its superset |
| Graph.FindIndex | src/components/NetworkVisualization.jsx:41-42 | the result is the first index holding the id, or -1 exactly when no node has that id |
| Graph.Find | src/components/NetworkVisualization.jsx:41-42 | a found node is the FIRST node with the id, as `find` returns it; `undefined` exactly when no node has the id |
| Graph.UniqueIds | src/components/NetworkVisualization.jsx:41-42 | no two nodes share an id; the assumption under which a lookup by id names one node |
| Graph.NodeIdsInit | src/pages/NetworkExplorer.jsx:72 | without its last node, uniquely identified nodes keep every id but the last node's |
| Graph.UniqueIdsCount | src/pages/NetworkExplorer.jsx:72 | uniquely identified nodes carry as many ids as there are nodes |
| Graph.CommunityOf | src/pages/NetworkExplorer.jsx:51 | the mapped list has the community of each node, position by position |
| Graph.DedupeSpec | src/pages/NetworkExplorer.jsx:51 | `Array.from(new Set(…))` keeps exactly the set of values, each once |
| Graph.Dedupe | src/pages/NetworkExplorer.jsx:51 | the distinct values as a `Set` enumerates them; its contract is stated by `Graph.DedupeSpec` |
| Graph.InsertAscending | src/pages/NetworkExplorer.jsx:52 | insertion adds exactly one element and keeps all others |
| Graph.InsertAscendingSorted | src/pages/NetworkExplorer.jsx:52 | inserting into an ascending list keeps it ascending |
| Graph.InsertAscendingStrict | src/pages/NetworkExplorer.jsx:52 | inserting a new value into a strictly ascending list keeps it strictly ascending |
| Graph.SortAscendingPermutes | src/pages/NetworkExplorer.jsx:52 | the numeric sort is a permutation of its input |
| Graph.SortAscendingSorted | src/pages/NetworkExplorer.jsx:52 | the numeric sort gives an ascending list |
| Graph.SortAscendingStrict | src/pages/NetworkExplorer.jsx:52 | sorting a list without duplicates gives a strictly ascending list |
| Graph.SortAscending | src/pages/NetworkExplorer.jsx:52 | the numeric sort; its permutation and order are stated by the three lemmas above |
| Graph.AllCommunitiesSpec | src/pages/NetworkExplorer.jsx:50-53 | the community list is strictly ascending and contains exactly the communities of the nodes, one entry per distinct community |
| Graph.AllCommunities | src/pages/NetworkExplorer.jsx:50-53 | the explorer's `allComms` and the lyrical page's communities (TextAnalysis.jsx:38-39); `Graph.AllCommunitiesSpec` states its contract |
| Graph.NoCommunitiesOfEmpty | src/pages/TextAnalysis.jsx:38-39 | the empty dataset has an empty community list |
| Graph.MembersSpec | src/pages/TextAnalysis.jsx:163-164 | the member list of `c` holds only nodes of `c`, each node of `c` as often as the dataset does, in dataset order; its size is at most the node count |
| Graph.Members | src/pages/TextAnalysis.jsx:163-164 | the member list of a community; `Graph.MembersSpec` states its contract |
| Graph.CommunitySize | src/pages/TextAnalysis.jsx:142 | the member count shown for a community (also NetworkExplorer.jsx:74-75); at least 1 for any community a node carries (`Graph.MemberOfOwnCommunity`) |
| Graph.MemberOfOwnCommunity | src/pages/NetworkExplorer.jsx:74-76 | every node is a member of its own community |
| Graph.CommunitySizes | src/pages/NetworkExplorer.jsx:74-76 | one size per listed community, the size of that community |
| Graph.MembersInAddOne | src/pages/NetworkExplorer.jsx:74-76 | adding one new community to a set adds its size to the count of nodes in the set |
| Graph.SumOfSizes | src/pages/NetworkExplorer.jsx:74-76 | the sizes of distinct communities add up to the number of nodes in any of them |
| Graph.MembersInAll | src/pages/NetworkExplorer.jsx:74-76 | counting the nodes of a set that covers every community counts all nodes |
| Graph.CommunitySizesPartition | src/pages/NetworkExplorer.jsx:73-76 | the community sizes add up to the node count: the communities partition the nodes |
| Decades.IndexFrom | src/pages/NetworkExplorer.jsx:27-30 | the first row at or after `from` with that id, or -1 exactly when there is none |
| Decades.IndexOf | src/pages/NetworkExplorer.jsx:27-30 | the `findIndex` over the decade table: the first row with the id, or -1 exactly when no row has it |
| Decades.IndexOfId | src/pages/NetworkExplorer.jsx:6-14 | each row's id finds that row (the ids are distinct), and each id has five characters |
| Decades.DecadeIdLength | src/pages/TextAnalysis.jsx:5-13 | every decade id is five characters long |
| Decades.Navigate | src/pages/NetworkExplorer.jsx:60-65 | the index moves by exactly `delta` or stays; from a valid index it stays within the table |
| Decades.ButtonsMatchNavigation | src/pages/NetworkExplorer.jsx:112-126 | the previous (next) step is ignored exactly when its button is disabled, and otherwise moves by one |
| Decades.PrevDisabled | src/pages/NetworkExplorer.jsx:114 | the previous button is disabled on the first decade (also TextAnalysis.jsx:78); `Decades.ButtonsMatchNavigation` ties it to navigation |
| Decades.NextDisabled | src/pages/NetworkExplorer.jsx:125 | the next button is disabled on the last decade (also TextAnalysis.jsx:89); `Decades.ButtonsMatchNavigation` ties it to navigation |
| Decades.NavigateReachesTarget | src/pages/TextAnalysis.jsx:54-59 | a non-zero step is taken exactly when its target lies within the table |
| Paths.DigitRoundTrip | src/pages/NetworkExplorer.jsx:41 | reading a digit character back gives its value |
| Paths.NatToString | src/pages/NetworkExplorer.jsx:41 | the rendering of a number is a non-empty string of digits without a leading zero |
| Paths.NatToStringRoundTrip | src/pages/NetworkExplorer.jsx:41 | reading the digits of a status back gives the status |
| Paths.NatToStringInjective | src/pages/TextAnalysis.jsx:134 | distinct numbers render differently |
| Paths.IntToString | src/pages/TextAnalysis.jsx:134 | the rendering is non-empty and starts with `-` exactly for a negative number |
| Paths.MinusDigits | src/pages/TextAnalysis.jsx:134 | after the sign, a negative number renders as its magnitude |
| Paths.IntToStringInjective | src/pages/TextAnalysis.jsx:134 | distinct community numbers render differently |
| Paths.ConcatCancel | src/pages/NetworkExplorer.jsx:34-35 | two joins with equally long right parts are equal only part by part |
| Paths.DataPath | src/pages/NetworkExplorer.jsx:34-35 | the dataset file of network type, method and decade (also TextAnalysis.jsx:32); `Paths.DataPathInjective` shows it names each dataset uniquely |
| Paths.WordCloudPath | src/pages/TextAnalysis.jsx:134 | the word-cloud image of a community (also line 197); `Paths.WordCloudPathInjective` shows it names each image uniquely |
| Paths.DataPathInjective | src/pages/NetworkExplorer.jsx:34-35 | with one base URL the data paths are equal exactly when network type, method and decade agree |
| Paths.WordCloudPathInjective | src/pages/TextAnalysis.jsx:197 | with one base URL the word-cloud paths are equal exactly when method, decade and community agree |
| Loader.Resolve | src/pages/NetworkExplorer.jsx:39-45 | the chain yields the dataset exactly for an ok status with a readable body; a non-ok status fails with the HTTP message before the body is read; otherwise the network or parse message |
| Loader.StatusOk | src/pages/NetworkExplorer.jsx:41 | `res.ok`: a status from 200 to 299 |
| Loader.HttpError | src/pages/NetworkExplorer.jsx:41 | the message of a non-ok response; `Loader.HttpErrorRoundTrip` shows it names its status and is never empty |
| Loader.Shows | src/components/NetworkVisualization.jsx:15 | JavaScript truthiness of the error: shown only when present and non-empty (also TextAnalysis.jsx:124) |
| Loader.HttpErrorRoundTrip | src/pages/NetworkExplorer.jsx:41 | the HTTP error message names its status and is never empty, so it is displayed |
| Statistics.InsertByValue | src/pages/NetworkExplorer.jsx:78-79 | insertion adds exactly one node and keeps all others |
| Statistics.InsertByValueSorted | src/pages/NetworkExplorer.jsx:78-79 | inserting into a list sorted by descending value keeps it sorted |
| Statistics.InsertByValueStable | src/pages/NetworkExplorer.jsx:78-79 | the inserted node comes before the existing nodes of its value, whose order is kept |
| Statistics.SortByValue | src/pages/NetworkExplorer.jsx:78-79 | the sort copies: a permutation of the nodes, by non-increasing `value \|\| 0` |
| Statistics.SortByValueStable | src/pages/NetworkExplorer.jsx:78-79 | the sort is stable: the nodes of any one value keep their dataset order |
| Statistics.TopNodesSpec | src/pages/NetworkExplorer.jsx:78-80 | the top list has min(5, n) nodes, in non-increasing value, all from the dataset |
| Statistics.SortedSplit | src/pages/NetworkExplorer.jsx:78-80 | in a sorted list nothing after a cut has a higher value than anything before it |
| Statistics.TopNodesAreHighest | src/pages/NetworkExplorer.jsx:78-80 | no node left out of the top list has a higher value than a node in it |
| Statistics.TopNodesStable | src/pages/NetworkExplorer.jsx:78-80 | among nodes of equal value, the top list holds the earliest ones of the dataset, in order |
| Statistics.Key | src/pages/NetworkExplorer.jsx:79 | the sort key `value \|\| 0`: a missing value counts as 0 |
| Statistics.TopNodes | src/pages/NetworkExplorer.jsx:78-80 | the five nodes of highest value from a sorted copy; the three lemmas above state its contract |
| Statistics.MaxOf | src/pages/NetworkExplorer.jsx:77 | `Math.max` of no sizes is `-Infinity`; otherwise it is one of the sizes and at least every size |
| Statistics.AverageConnections | src/pages/NetworkExplorer.jsx:71 | for n > 0 the average times n equals 2m (each link has two ends); 0 without nodes |
| Statistics.Density | src/pages/NetworkExplorer.jsx:72 | for n > 1 the density times n(n-1) equals 2m; 0 for at most one node |
| Statistics.TouchSplit | src/pages/NetworkExplorer.jsx:72 | every link either touches a node or avoids it, so the two filters split the links |
| Statistics.DistinctPairsTail | src/pages/NetworkExplorer.jsx:72 | dropping the first link keeps the pairs distinct |
| Statistics.FirstApart | src/pages/NetworkExplorer.jsx:72 | the first link shares its pair with none of the later links a filter keeps |
| Statistics.FilterDistinctPairs | src/pages/NetworkExplorer.jsx:72 | dropping links keeps the remaining pairs distinct |
| Statistics.FarEnds | src/pages/NetworkExplorer.jsx:72 | the far end, seen from a node, of each link at that node |
| Statistics.FarEndsDistinct | src/pages/NetworkExplorer.jsx:72 | distinct links at a node lead to distinct far ends |
| Statistics.FarEndsWithin | src/pages/NetworkExplorer.jsx:72 | the far ends of links at a node are other node ids |
| Statistics.FilterWithin | src/pages/NetworkExplorer.jsx:72 | keeping some links keeps them between ids of the network |
| Statistics.DegreeBound | src/pages/NetworkExplorer.jsx:72 | any node of a simple network has at most n-1 links |
| Statistics.RemoveLastSimple | src/pages/NetworkExplorer.jsx:72 | removing a node and its links from a simple network leaves a simple network |
| Statistics.SimpleLinkBound | src/pages/NetworkExplorer.jsx:72 | a simple network has at most n(n-1)/2 links |
| Statistics.StepBound | src/pages/NetworkExplorer.jsx:72 | adding a node with at most n-1 links keeps the bound n(n-1)/2 |
| Statistics.DensityBound | src/pages/NetworkExplorer.jsx:72 | a link count within n(n-1)/2 gives a density of at most 1 |
| Statistics.DensityAtMostOne | src/pages/NetworkExplorer.jsx:72 | the density of a simple network (unique node ids, every link joins two different nodes, no pair joined twice) is at most 1 |
| Statistics.StatsOf | src/pages/NetworkExplorer.jsx:68-83 | the counts are the counts of the dataset, and the community count is the length of the community list |
| Statistics.CommunityStats | src/pages/NetworkExplorer.jsx:73-77 | the community count is the number of distinct communities; the largest size is `-Infinity` exactly for no nodes, and otherwise the size of a community, at least every other size and between 1 and n |
| NetworkVisualization.RenderGate | src/components/NetworkVisualization.jsx:14-17 | loading wins; then a non-empty error is shown with its message; then no nodes gives the empty placeholder; only otherwise is the graph drawn |
| NetworkVisualization.PaintNode | src/components/NetworkVisualization.jsx:26-38 | a node is labelled exactly when nothing is highlighted or its community is; a labelled node keeps its colour and shows its name, every other node is grey |
| NetworkVisualization.IsHighlighted | src/components/NetworkVisualization.jsx:27 | the highlight test: the list is empty or names the node's community |
| NetworkVisualization.PaintedNodes | src/components/NetworkVisualization.jsx:26-38 | over a whole dataset the labelled nodes are all nodes when nothing is highlighted, and otherwise exactly the members of the highlighted communities in dataset order; every other node is grey |
| NetworkVisualization.EndpointCommunity | src/components/NetworkVisualization.jsx:41-42 | `undefined` exactly when no node has the id; otherwise the community of the first node with it |
| NetworkVisualization.Includes | src/components/NetworkVisualization.jsx:43 | `includes` on a looked-up community: an `undefined` community is never in the list of numbers |
| NetworkVisualization.LinkFull | src/components/NetworkVisualization.jsx:43 | the `both` test on the looked-up endpoint communities; `NetworkVisualization.LinkColor` states what it means for the endpoint nodes |
| NetworkVisualization.LinkColor | src/components/NetworkVisualization.jsx:40-45 | one of two greys; full with nothing highlighted; between existing nodes, full exactly when both endpoint nodes are highlighted; dimmed once something is highlighted and an endpoint names no node |
| NetworkVisualization.LiveCommunityAsWritten | src/components/NetworkVisualization.jsx:41-42 | the lookup as written, on a link the graph library has rewritten: a node object never equals an id, so it finds nothing |
| NetworkVisualization.LiveLinkColorAsWritten | src/components/NetworkVisualization.jsx:40-45 | the link colouring as written, on a rewritten link: one of the two greys, full with nothing highlighted, and dimmed whenever something is highlighted and an endpoint is a node object; `NetworkVisualization.StartedLinksAllDimmed` is its partner |
| NetworkVisualization.StartedLinksAllDimmed | src/components/NetworkVisualization.jsx:40-45 | as written, once the layout has started and something is highlighted, every link is dimmed |
| NetworkVisualization.StartedLinkBetweenHighlightedDimmed | src/components/NetworkVisualization.jsx:40-45 | the concrete case: a link between two nodes of the one highlighted community is dimmed |
| NetworkVisualization.LiveCommunity | src/components/NetworkVisualization.jsx:41-42 | the intended lookup: a node-object endpoint gives its own community, an id endpoint the first node's |
| NetworkVisualization.LiveLinkColor | src/components/NetworkVisualization.jsx:40-45 | the intended colouring: one of the two greys, full with nothing highlighted, and for node-object endpoints full exactly when both endpoint nodes are highlighted; `NetworkVisualization.LiveLinkColorAgrees` is its partner |
| NetworkVisualization.FindUnique | src/components/NetworkVisualization.jsx:41-42 | with unique ids a node's id finds that node |
| NetworkVisualization.LiveLinkColorAgrees | src/components/NetworkVisualization.jsx:40-45 | with unique ids the intended colouring of a rewritten link equals `LinkColor` of the original link |
| NetworkVisualization.PanelFor | src/components/NetworkVisualization.jsx:58-70 | a panel exists exactly for a selected node, shows its name, and lists its genres exactly when it has some |
| NetworkVisualization.Visualization.constructor | src/components/NetworkVisualization.jsx:12 | no node is selected at first |
| NetworkVisualization.Visualization.ClickNode | src/components/NetworkVisualization.jsx:50-51 | a click selects the clicked node, whatever was selected |
| NetworkVisualization.Visualization.Close | src/components/NetworkVisualization.jsx:73 | Close clears the selection |
| NetworkVisualization.Visualization.Rendered | src/components/NetworkVisualization.jsx:14-58 | the screen is the gate's, and the side panel appears exactly beside a drawn graph with a selected node, and it is the panel of that node |
| NetworkExplorer.WithoutCons | src/pages/NetworkExplorer.jsx:57 | removing `c` from a list with a head keeps the head exactly when it is not `c` |
| NetworkExplorer.Without | src/pages/NetworkExplorer.jsx:57 | the highlight list without a community, the rest in order; `NetworkExplorer.Toggle` states what remains |
| NetworkExplorer.Toggle | src/pages/NetworkExplorer.jsx:55-58 | a present community is removed (every occurrence), the rest keep order and multiplicity; an absent one is appended |
| NetworkExplorer.ToggleFlipsMembership | src/pages/NetworkExplorer.jsx:55-58 | toggling flips the membership of `c` and of no other community |
| NetworkExplorer.WithoutAbsent | src/pages/NetworkExplorer.jsx:57 | removing a value that was just appended to a list without it gives the list back |
| NetworkExplorer.ToggleTwiceRestores | src/pages/NetworkExplorer.jsx:55-58 | checking and then unchecking a community restores the highlight list |
| NetworkExplorer.Explorer.constructor | src/pages/NetworkExplorer.jsx:17-25 | the initial state: 2020s, writers, first release, empty search, filters hidden, nothing highlighted, empty dataset, not loading, no error |
| NetworkExplorer.Explorer.AllComms | src/pages/NetworkExplorer.jsx:50-53 | the check boxes offered: strictly ascending, exactly the communities of the current dataset |
| NetworkExplorer.Explorer.Stats | src/pages/NetworkExplorer.jsx:68-83 | the panel computed from the dataset alone; `ToggleComm` and `SetSearchQuery` prove it unchanged by highlight and search |
| NetworkExplorer.Explorer.DataFile | src/pages/NetworkExplorer.jsx:34-35 | the file the load effect requests for the current type, method and decade |
| NetworkExplorer.Explorer.DecadeIndex | src/pages/NetworkExplorer.jsx:27-30 | the `decadeIndex` of the selected decade: its row of the table, or -1 exactly when no row has it; partner `Decades.IndexOf` |
| NetworkExplorer.Explorer.GraphProps | src/pages/NetworkExplorer.jsx:195-200 | the props given to the graph component: the unfiltered dataset, the load state and the highlight list, without the search text |
| NetworkExplorer.Explorer.Screen | src/pages/NetworkExplorer.jsx:195-200 | what the graph component shows for those props (`NetworkVisualization.RenderGate`) |
| NetworkExplorer.Explorer.BeginLoad | src/pages/NetworkExplorer.jsx:33-39 | the file requested is the one the selectors name; loading is on and the error cleared, so the component shows the loading placeholder; nothing else changes |
| NetworkExplorer.Explorer.Settle | src/pages/NetworkExplorer.jsx:39-46 | success replaces the dataset; failure records the message and keeps the old dataset; loading ends either way; a non-ok status puts `HTTP <status>` on screen |
| NetworkExplorer.Explorer.ToggleComm | src/pages/NetworkExplorer.jsx:182-183 | the highlight list is toggled and the statistics are unchanged |
| NetworkExplorer.Explorer.SetSearchQuery | src/pages/NetworkExplorer.jsx:157-158 | the query is stored, but the props of the graph component and the statistics are unchanged |
| NetworkExplorer.Explorer.ToggleFilters | src/pages/NetworkExplorer.jsx:164 | the check boxes are shown or hidden, the opposite of before |
| NetworkExplorer.Explorer.SetNetworkType | src/pages/NetworkExplorer.jsx:97 | the network type is the one chosen |
| NetworkExplorer.Explorer.SetMethod | src/pages/NetworkExplorer.jsx:140 | the community method is the one chosen |
| NetworkExplorer.Explorer.NavDecade | src/pages/NetworkExplorer.jsx:60-65 | the decade stays a table decade and moves as `Navigate` says |
| TextAnalysis.KeepLink | src/pages/TextAnalysis.jsx:148-151 | the test throws exactly when the source id, or (for a source in `c`) the target id, names no node; it keeps a link exactly when both endpoints are nodes of `c` |
| TextAnalysis.Connections | src/pages/TextAnalysis.jsx:148-151 | the count throws exactly when the test throws on some link; otherwise the kept links are a subsequence of the links |
| TextAnalysis.ConnectionsContent | src/pages/TextAnalysis.jsx:148-151 | the kept links are exactly the internal links of `c`, each as often as the dataset lists it |
| TextAnalysis.ConnectionsOfClosed | src/pages/TextAnalysis.jsx:148-151 | when every link names existing nodes the count never throws |
| TextAnalysis.ConnectionsJoinMembers | src/pages/TextAnalysis.jsx:148-151 | each counted link is a dataset link both of whose endpoints are members of the community |
| TextAnalysis.Names | src/pages/TextAnalysis.jsx:165-166 | one name per member, position by position |
| TextAnalysis.Cards | src/pages/TextAnalysis.jsx:187-200 | one card per community in list order, with that community's word cloud |
| TextAnalysis.CommunityPage.constructor | src/pages/TextAnalysis.jsx:16-22 | the initial state: 2020s, first release, no communities, empty dataset, nothing selected, spinner on, no error |
| TextAnalysis.CommunityPage.DataUrl | src/pages/TextAnalysis.jsx:32 | the artists dataset of the page's method and decade |
| TextAnalysis.CommunityPage.DecadeIndex | src/pages/TextAnalysis.jsx:24 | the `decadeIndex` of the selected decade: its row of the table, or -1 exactly when no row has it; partner `Decades.IndexOf` |
| TextAnalysis.CommunityPage.BeginLoad | src/pages/TextAnalysis.jsx:28-33 | the URL requested is the artists dataset of the page's method and decade; loading is on and the error cleared |
| TextAnalysis.CommunityPage.Settle | src/pages/TextAnalysis.jsx:33-49 | success takes the dataset and its community list; failure records the message and empties both; the spinner and the selection are cleared either way; the invariant holds |
| TextAnalysis.CommunityPage.NavigateDecade | src/pages/TextAnalysis.jsx:54-59 | the decade stays a table decade and moves as `Navigate` says |
| TextAnalysis.CommunityPage.SetMethod | src/pages/TextAnalysis.jsx:104 | the community method is the one chosen |
| TextAnalysis.CommunityPage.SelectCommunity | src/pages/TextAnalysis.jsx:191 | a card click selects its community, which is a listed one |
| TextAnalysis.CommunityPage.BackToCommunities | src/pages/TextAnalysis.jsx:174 | the back button clears the selection |
| TextAnalysis.CommunityPage.View | src/pages/TextAnalysis.jsx:120-207 | exactly one of spinner, error, thrown render, detail, grid or empty message, in that priority; a selected community whose connection count throws gives the thrown render; the detail shows the community's word cloud, its member count, the names of exactly its members, and the number of its internal links; the grid has one card per community |
| TextAnalysis.DetailHasMembers | src/pages/TextAnalysis.jsx:142-151 | a community shown in detail has at least one member, one name per member, and as many connections as links inside it |
| TextAnalysis.ClosedNeverThrows | src/pages/TextAnalysis.jsx:148-151 | on a dataset whose links all name existing nodes the page never throws |
| TextAnalysis.DanglingLinkThrows | src/pages/TextAnalysis.jsx:148-151 | any link, at any position, from a member of the selected community to an id no node carries makes the page throw |
| TextAnalysis.GridCardsDistinct | src/pages/TextAnalysis.jsx:185-203 | the cards are in strictly ascending community order and no two show the same word cloud |
| TextAnalysis.FailedLoadView | src/pages/TextAnalysis.jsx:120-125 | after a failed load a non-empty message is shown; an empty one falls through to "No communities found." |

## Left out

- The network: `fetch` and `res.json()` are not modelled. How a request ends is the `FetchOutcome` input.
- Bodies of the wrong shape: a body that does not parse is the `Unreadable(message)` case. Valid JSON that is not a dataset is not modelled. The explorer would store it (NetworkExplorer.jsx:44), and its render would then throw at `graphData.nodes.map` (line 51). The lyrical page would throw at TextAnalysis.jsx:38 inside its `try`, which records the TypeError's message; that is `Unreadable` with that message.
- Asynchrony: overlapping loads and their interleaving are not modelled. Each load is `BeginLoad` followed by one `Settle`, and neither page has a request token to model. When a load starts is left to the caller: React re-runs the effect only when decade, network type or method actually change (decade or method on the lyrical page) (NetworkExplorer.jsx:47, TextAnalysis.jsx:52), so a step past either end of the table or re-selecting the current value starts none.
- `import.meta.env.BASE_URL` is the `baseUrl` parameter of each page's constructor.
- The graph library (`react-force-graph-2d`): the force simulation, `nodeAutoColorBy` (a node's `color` is an opaque input), canvas drawing (radius `sqrt(value || 5)`, fonts, stroke), and the camera calls `centerAt`/`zoom` after a click.
- Statistics.StatsOf: numbers are exact rationals, and the `toFixed(2)`/`toFixed(4)` rounding of the displayed strings is not modelled.
- NetworkVisualization.LinkColor: describes the colouring on links with their id endpoints, that is, before the layout starts or under the corrected lookup. Once the library has rewritten the endpoints, the code as written dims every link whenever something is highlighted (see "## Findings").
- The search box filters nothing in the code. Only the stored text and the fact that it reaches nothing else are modelled.
- The JSX markup, styling, headings, the `key` props, the lyrical page's methodology text, and `console.error` logging.
- Numbers: node ids are strings and community labels are integers, as in the datasets. JavaScript's non-integer or non-numeric community values are not modelled. HTTP statuses and community labels are taken to be safe integers (below 2^53 in magnitude), for which JavaScript renders the plain decimal string; exponent notation and lost precision of larger numbers are not modelled.

## Findings

| source | as written | input that shows it | evidently intended | confidence | as-written member | corrected member |
|---|---|---|---|---|---|---|
| src/components/NetworkVisualization.jsx:41-43 | the link colour looks up each endpoint by comparing node ids with `l.source`/`l.target`; the graph library replaces those with node objects when the layout starts, so the lookup finds nothing and, with any community highlighted, every link is dimmed | communities `[1]` highlighted, nodes `a` and `b` both in community 1, the link `a`-`b` after the layout has started | a link between two highlighted nodes is drawn in full, whether its endpoints are ids or node objects | medium (it rests on the graph library's documented rewrite of links; not executed) | NetworkVisualization.StartedLinkBetweenHighlightedDimmed | NetworkVisualization.LiveLinkColorAgrees |
