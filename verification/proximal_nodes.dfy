/** The proximal nodes model of `proximalNodesModel.py`.

    Terms and documents become nodes of an undirected graph: every term of
    document `i` is linked to the node `"doc_i"` and to every term that
    follows it in the document. A query is a list of "proximal" nodes; a
    breadth-first walk from them over term nodes collects the document nodes
    it meets whose lower-cased text contains one of the proximal nodes. */
module ProximalNodes {
  import opened Basics
  import opened Text

  /** Lines 11-16: lower-case, split on whitespace, keep alphanumeric tokens
      that are not stop words, lemmatize. */
  function PreprocessAlnum(cfg: Config, text: string): (r: seq<string>)
    ensures |r| <= |Tokens(text)|
    ensures forall t :: t in r <==>
      exists w :: w in Tokens(text) && IsAlnum(w) && w !in cfg.stopWords && t == cfg.lemmatize(w)
  {
    Normalize(cfg, true, Tokens(text))
  }

  /** The preprocessed terms of every document. */
  function AlnumLists(cfg: Config, documents: seq<string>): (r: seq<seq<string>>)
    ensures |r| == |documents|
    ensures forall d :: 0 <= d < |documents| ==> r[d] == PreprocessAlnum(cfg, documents[d])
  {
    seq(|documents|, d requires 0 <= d < |documents| => PreprocessAlnum(cfg, documents[d]))
  }

  // ---------------------------------------------------------------------------
  // Document nodes

  const DocPrefix: string := "doc_"

  /** Line 37, `f"doc_{doc_id}"`. */
  function DocNode(id: nat): string {
    DocPrefix + NatToString(id)
  }

  /** Line 62: the test that tells document nodes from term nodes. */
  predicate IsDocNode(node: string) {
    StartsWith(node, DocPrefix)
  }

  /** `s.split("_")[1]` for a string with at least one underscore: the text
      between the first underscore and the next one (or the end). */
  function SecondField(s: string): string {
    if s == [] then [] else if s[0] == '_' then UpToUnderscore(s[1..]) else SecondField(s[1..])
  }

  function UpToUnderscore(s: string): (r: string)
    ensures '_' !in r
  {
    if s == [] || s[0] == '_' then [] else [s[0]] + UpToUnderscore(s[1..])
  }

  lemma {:induction false} UpToUnderscoreWhole(s: string)
    requires '_' !in s
    ensures UpToUnderscore(s) == s
  {
    if s != [] {
      UpToUnderscoreWhole(s[1..]);
      assert s == [s[0]] + s[1..];
    }
  }

  lemma SecondFieldAfterPrefix(s: string)
    ensures SecondField(DocPrefix + s) == UpToUnderscore(s)
  {
    var t0 := DocPrefix + s;
    var t1, t2, t3 := "oc_" + s, "c_" + s, "_" + s;
    assert t0[0] == 'd' && t0[1..] == t1;
    assert SecondField(t0) == SecondField(t1);
    assert t1[0] == 'o' && t1[1..] == t2;
    assert SecondField(t1) == SecondField(t2);
    assert t2[0] == 'c' && t2[1..] == t3;
    assert SecondField(t2) == SecondField(t3);
    assert t3[0] == '_' && t3[1..] == s;
  }

  /** Python's `int(s)` on an optionally signed decimal numeral; `None`
      stands for the `ValueError` it raises otherwise. */
  function ParseInt(s: string): (r: Option<int>)
  {
    if s != [] && s[0] == '-' then
      match ParseNat(s[1..]) case Some(n) => Some(-(n as int)) case None => None
    else if s != [] && s[0] == '+' then
      match ParseNat(s[1..]) case Some(n) => Some(n as int) case None => None
    else
      match ParseNat(s) case Some(n) => Some(n as int) case None => None
  }

  /** Lines 64-65, `documents[int(node.split("_")[1])]`: the position in a
      list of `n` documents a document node refers to, counting from the end
      for a negative number as Python does; `None` stands for the
      `ValueError` or `IndexError` Python raises. */
  function DocIndex(node: string, n: nat): (r: Option<nat>)
    ensures r.Some? ==> r.value < n
  {
    match ParseInt(SecondField(node))
    case None => None
    case Some(i) =>
      if 0 <= i < n then Some(i as nat)
      else if -(n as int) <= i < 0 then Some((n as int + i) as nat)
      else None
  }

  /** The number after `"doc_"` in a document node reads back as the id it
      was built from: `int(f"doc_{i}".split("_")[1]) == i`. */
  lemma DocNodeRoundTrip(id: nat, n: nat)
    requires id < n
    ensures IsDocNode(DocNode(id))
    ensures DocIndex(DocNode(id), n) == Some(id)
  {
    var digits := NatToString(id);
    var node := DocNode(id);
    assert node[..|DocPrefix|] == DocPrefix;
    assert '_' !in digits by {
      forall k | 0 <= k < |digits| ensures digits[k] != '_' {
        assert IsDigitChar(digits[k]);
      }
    }
    SecondFieldAfterPrefix(digits);
    UpToUnderscoreWhole(digits);
    ParseShowsBack(id);
  }

  /** The lemmatizer keeps alphanumeric words alphanumeric. */
  ghost predicate AlnumPreserving(cfg: Config) {
    forall w :: IsAlnum(w) ==> IsAlnum(cfg.lemmatize(w))
  }

  /** With such a lemmatizer no term looks like a document node, because an
      alphanumeric term holds no underscore: the test of line 62 never takes
      a term for a document. */
  lemma TermIsNotDocNode(cfg: Config, text: string, t: string)
    requires AlnumPreserving(cfg)
    ensures t in PreprocessAlnum(cfg, text) ==> !IsDocNode(t)
  {
    if t in PreprocessAlnum(cfg, text) {
      var w :| w in Tokens(text) && IsAlnum(w) && w !in cfg.stopWords && t == cfg.lemmatize(w);
      assert IsAlnum(t);
      if |t| >= |DocPrefix| {
        assert t[3] != '_';
        assert t[..|DocPrefix|][3] == t[3];
      }
    }
  }

  // ---------------------------------------------------------------------------
  // The graph

  /** Node -> set of neighbours. */
  type Graph = map<string, set<string>>

  /** Lines 25-27, `add_node`. */
  function AddNode(g: Graph, node: string): Graph {
    if node in g then g else g[node := {}]
  }

  /** Lines 29-33, `add_edge`: both nodes exist afterwards and each is in the
      other's neighbour set. */
  function AddEdge(g: Graph, a: string, b: string): (r: Graph)
    ensures forall x :: x in r <==> x in g || x == a || x == b
    ensures forall x, y :: x in r ==>
      (y in r[x] <==> (x in g && y in g[x]) || (x == a && y == b) || (x == b && y == a))
  {
    var g1 := AddNode(AddNode(g, a), b);
    var g2 := g1[a := g1[a] + {b}];
    g2[b := g2[b] + {a}]
  }

  /** `add_edge` for each pair of `edges`, in order. */
  function AddEdges(g: Graph, edges: seq<(string, string)>): Graph {
    if edges == [] then g
    else
      var last := edges[|edges| - 1];
      AddEdge(AddEdges(g, edges[..|edges| - 1]), last.0, last.1)
  }

  /** `x` is an end of some edge. */
  ghost predicate Endpoint(edges: seq<(string, string)>, x: string) {
    exists e :: e in edges && (e.0 == x || e.1 == x)
  }

  /** Adding edges one by one gives the graph whose nodes are the old nodes
      and the ends of the edges, and whose adjacency is the old one plus each
      edge in both directions. */
  lemma {:induction false} AddEdgesSpec(g: Graph, edges: seq<(string, string)>, x: string, y: string)
    ensures var r := AddEdges(g, edges);
      && (x in r <==> x in g || Endpoint(edges, x))
      && (x in r ==> (y in r[x] <==> (x in g && y in g[x]) || (x, y) in edges || (y, x) in edges))
  {
    if edges != [] {
      var init, last := edges[..|edges| - 1], edges[|edges| - 1];
      assert edges == init + [last];
      AddEdgesSpec(g, init, x, y);
      assert forall e :: e in edges <==> e in init || e == last;
    }
  }

  /** `itertools.combinations(terms, 2)`: every pair of positions `i < j`,
      in the order itertools produces them. */
  function Pairs(terms: seq<string>): seq<(string, string)> {
    if terms == [] then []
    else seq(|terms| - 1, k requires 0 <= k < |terms| - 1 => (terms[0], terms[k + 1])) + Pairs(terms[1..])
  }

  /** `a` occurs in `terms` before an occurrence of `b`. */
  ghost predicate CoOccur(terms: seq<string>, a: string, b: string) {
    exists i, j :: 0 <= i < j < |terms| && terms[i] == a && terms[j] == b
  }

  lemma {:induction false} PairsMember(terms: seq<string>, a: string, b: string)
    ensures (a, b) in Pairs(terms) <==> CoOccur(terms, a, b)
  {
    if terms != [] {
      var rest := terms[1..];
      var front := seq(|terms| - 1, k requires 0 <= k < |terms| - 1 => (terms[0], terms[k + 1]));
      PairsMember(rest, a, b);
      if (a, b) in front {
        var k :| 0 <= k < |front| && front[k] == (a, b);
        assert terms[0] == a && terms[k + 1] == b;
      }
      if CoOccur(terms, a, b) {
        var i, j :| 0 <= i < j < |terms| && terms[i] == a && terms[j] == b;
        if i == 0 {
          assert front[j - 1] == (a, b);
        } else {
          assert rest[i - 1] == a && rest[j - 1] == b;
        }
      }
      if CoOccur(rest, a, b) {
        var i, j :| 0 <= i < j < |rest| && rest[i] == a && rest[j] == b;
        assert terms[i + 1] == a && terms[j + 1] == b;
      }
    }
  }

  /** Lines 39-45 for document `id`: each term with the document node, then
      every pair of terms. */
  function DocEdges(terms: seq<string>, id: nat): seq<(string, string)> {
    seq(|terms|, k requires 0 <= k < |terms| => (terms[k], DocNode(id))) + Pairs(terms)
  }

  /** The edges of the first `n` documents, in the order `build_graph` adds them. */
  function AllEdges(lists: seq<seq<string>>, n: nat): seq<(string, string)>
    requires n <= |lists|
  {
    if n == 0 then [] else AllEdges(lists, n - 1) + DocEdges(lists[n - 1], n - 1)
  }

  /** Lines 19-47, `build_graph`. */
  function BuildGraph(cfg: Config, documents: seq<string>): Graph {
    var lists := AlnumLists(cfg, documents);
    AddEdges(map[], AllEdges(lists, |lists|))
  }

  /** The reference adjacency of document `id`: a term and the document node,
      or two terms of which one occurs before the other. */
  ghost predicate Linked(terms: seq<string>, id: nat, x: string, y: string) {
    || (x in terms && y == DocNode(id))
    || (y in terms && x == DocNode(id))
    || CoOccur(terms, x, y)
    || CoOccur(terms, y, x)
  }

  lemma DocEdgesMember(terms: seq<string>, id: nat, x: string, y: string)
    ensures (x, y) in DocEdges(terms, id) <==> (x in terms && y == DocNode(id)) || CoOccur(terms, x, y)
  {
    var front := seq(|terms|, k requires 0 <= k < |terms| => (terms[k], DocNode(id)));
    PairsMember(terms, x, y);
    if (x, y) in front {
      var k :| 0 <= k < |front| && front[k] == (x, y);
    }
    if x in terms && y == DocNode(id) {
      var k :| 0 <= k < |terms| && terms[k] == x;
      assert front[k] == (x, y);
    }
  }

  lemma DocEdgesEndpoint(terms: seq<string>, id: nat, x: string)
    ensures Endpoint(DocEdges(terms, id), x) <==> x in terms || (x == DocNode(id) && terms != [])
  {
    var es := DocEdges(terms, id);
    if Endpoint(es, x) {
      var e :| e in es && (e.0 == x || e.1 == x);
      DocEdgesMember(terms, id, e.0, e.1);
      if CoOccur(terms, e.0, e.1) {
        var i, j :| 0 <= i < j < |terms| && terms[i] == e.0 && terms[j] == e.1;
      }
    }
    if x in terms {
      DocEdgesMember(terms, id, x, DocNode(id));
    }
    if x == DocNode(id) && terms != [] {
      DocEdgesMember(terms, id, terms[0], x);
    }
  }

  lemma {:induction false} AllEdgesMember(lists: seq<seq<string>>, n: nat, x: string, y: string)
    requires n <= |lists|
    ensures (x, y) in AllEdges(lists, n) <==> exists d :: 0 <= d < n && (x, y) in DocEdges(lists[d], d)
  {
    if n > 0 {
      AllEdgesMember(lists, n - 1, x, y);
    }
  }

  lemma EndpointAppend(a: seq<(string, string)>, b: seq<(string, string)>, x: string)
    ensures Endpoint(a + b, x) <==> Endpoint(a, x) || Endpoint(b, x)
  {
    if Endpoint(a + b, x) {
      var e :| e in a + b && (e.0 == x || e.1 == x);
      assert e in a || e in b;
    }
    if Endpoint(a, x) {
      var e :| e in a && (e.0 == x || e.1 == x);
      assert e in a + b;
    }
    if Endpoint(b, x) {
      var e :| e in b && (e.0 == x || e.1 == x);
      assert e in a + b;
    }
  }

  lemma {:induction false} AllEdgesEndpoint(lists: seq<seq<string>>, n: nat, x: string)
    requires n <= |lists|
    ensures Endpoint(AllEdges(lists, n), x) <==> exists d :: 0 <= d < n && Endpoint(DocEdges(lists[d], d), x)
  {
    if n > 0 {
      var prev, last := AllEdges(lists, n - 1), DocEdges(lists[n - 1], n - 1);
      assert AllEdges(lists, n) == prev + last;
      AllEdgesEndpoint(lists, n - 1, x);
      EndpointAppend(prev, last, x);
      if exists d :: 0 <= d < n && Endpoint(DocEdges(lists[d], d), x) {
        var d :| 0 <= d < n && Endpoint(DocEdges(lists[d], d), x);
        if d < n - 1 {
          assert Endpoint(prev, x);
        } else {
          assert Endpoint(last, x);
        }
      }
    }
  }

  /** The nodes of the graph are the terms of the documents and the nodes of
      the documents with at least one term. */
  lemma GraphNodes(cfg: Config, documents: seq<string>, x: string)
    ensures x in BuildGraph(cfg, documents) <==>
      exists d :: 0 <= d < |documents| &&
        (x in PreprocessAlnum(cfg, documents[d]) || (x == DocNode(d) && PreprocessAlnum(cfg, documents[d]) != []))
  {
    var lists := AlnumLists(cfg, documents);
    AddEdgesSpec(map[], AllEdges(lists, |lists|), x, x);
    AllEdgesEndpoint(lists, |lists|, x);
    forall d | 0 <= d < |lists|
      ensures Endpoint(DocEdges(lists[d], d), x) <==> x in lists[d] || (x == DocNode(d) && lists[d] != [])
    {
      DocEdgesEndpoint(lists[d], d, x);
    }
  }

  /** Two nodes are neighbours exactly when some document links them. */
  lemma GraphEdges(cfg: Config, documents: seq<string>, x: string, y: string)
    ensures x in BuildGraph(cfg, documents) ==>
      (y in BuildGraph(cfg, documents)[x] <==>
         exists d :: 0 <= d < |documents| && Linked(PreprocessAlnum(cfg, documents[d]), d, x, y))
  {
    var lists := AlnumLists(cfg, documents);
    AddEdgesSpec(map[], AllEdges(lists, |lists|), x, y);
    AllEdgesMember(lists, |lists|, x, y);
    AllEdgesMember(lists, |lists|, y, x);
    forall d | 0 <= d < |lists|
      ensures (x, y) in DocEdges(lists[d], d) || (y, x) in DocEdges(lists[d], d) <==> Linked(lists[d], d, x, y)
    {
      DocEdgesMember(lists[d], d, x, y);
      DocEdgesMember(lists[d], d, y, x);
    }
  }

  /** Every edge goes both ways. */
  lemma GraphSymmetric(cfg: Config, documents: seq<string>, x: string, y: string)
    ensures x in BuildGraph(cfg, documents) && y in BuildGraph(cfg, documents)[x] ==>
      y in BuildGraph(cfg, documents) && x in BuildGraph(cfg, documents)[y]
  {
    var lists := AlnumLists(cfg, documents);
    EdgesBothWays(AllEdges(lists, |lists|), x, y);
  }

  /** The same for any graph built from nothing by `add_edge` calls. */
  lemma EdgesBothWays(edges: seq<(string, string)>, x: string, y: string)
    ensures var g := AddEdges(map[], edges);
      x in g && y in g[x] ==> y in g && x in g[y]
  {
    var g := AddEdges(map[], edges);
    if x in g && y in g[x] {
      AddEdgesSpec(map[], edges, x, y);
      AddEdgesSpec(map[], edges, y, x);
      assert Endpoint(edges, y);
    }
  }

  /** On the built graph, a neighbour that looks like a document node is
      the node of one of the documents. */
  lemma BuiltDocNeighbour(cfg: Config, documents: seq<string>, x: string, y: string)
    requires AlnumPreserving(cfg)
    ensures x in BuildGraph(cfg, documents) && y in BuildGraph(cfg, documents)[x] && IsDocNode(y) ==>
      exists d :: 0 <= d < |documents| && y == DocNode(d) && x in PreprocessAlnum(cfg, documents[d])
  {
    var g := BuildGraph(cfg, documents);
    if x in g && y in g[x] && IsDocNode(y) {
      GraphEdges(cfg, documents, x, y);
      var d :| 0 <= d < |documents| && Linked(PreprocessAlnum(cfg, documents[d]), d, x, y);
      var terms := PreprocessAlnum(cfg, documents[d]);
      TermIsNotDocNode(cfg, documents[d], y);
      assert y !in terms;
      assert !CoOccur(terms, x, y) && !CoOccur(terms, y, x);
    }
  }

  lemma DocNodeInjective(a: nat, b: nat)
    ensures DocNode(a) == DocNode(b) <==> a == b
  {
    var n := a + b + 1;
    DocNodeRoundTrip(a, n);
    DocNodeRoundTrip(b, n);
  }

  // ---------------------------------------------------------------------------
  // Retrieval

  /** Lines 63-66, `any(term in doc_content for term in proximal_nodes)`. */
  function AnyContains(proximal: seq<string>, text: string): (r: bool)
    ensures r <==> exists t :: t in proximal && Contains(text, t)
  {
    if proximal == [] then false
    else if Contains(text, proximal[0]) then
      assert proximal[0] in proximal;
      true
    else
      var rest := AnyContains(proximal[1..], text);
      assert forall t :: t in proximal && Contains(text, t) ==> t in proximal[1..];
      assert forall t :: t in proximal[1..] ==> t in proximal;
      rest
  }

  /** A document node whose document's lower-cased text contains a proximal
      node: the neighbours line 67 adds to the result. */
  predicate Hit(node: string, documents: seq<string>, proximal: seq<string>) {
    && IsDocNode(node)
    && var i := DocIndex(node, |documents|);
       i.Some? && AnyContains(proximal, Lower(documents[i.value]))
  }

  /** A document node that does not name a document: Python raises on it. */
  predicate BadDoc(node: string, n: nat) {
    IsDocNode(node) && DocIndex(node, n).None?
  }

  /** `graph.get(node, [])`. */
  function Neighbours(graph: Graph, node: string): set<string> {
    if node in graph then graph[node] else {}
  }

  /** Every term neighbour of a member of `s` is in `s`: document nodes met
      on the way are looked at but not walked through. */
  ghost predicate Closed(graph: Graph, s: set<string>) {
    forall x, y :: x in s && y in Neighbours(graph, x) && !IsDocNode(y) ==> y in s
  }

  /** `x` lies in every closed set that holds the proximal nodes: the walk
      reaches it. */
  ghost predicate Reach(graph: Graph, proximal: seq<string>, x: string) {
    forall s :: ElemSet(proximal) <= s && Closed(graph, s) ==> x in s
  }

  lemma ReachSeed(graph: Graph, proximal: seq<string>, p: string)
    requires p in proximal
    ensures Reach(graph, proximal, p)
  {
  }

  lemma ReachStep(graph: Graph, proximal: seq<string>, x: string, y: string)
    requires Reach(graph, proximal, x)
    requires y in Neighbours(graph, x) && !IsDocNode(y)
    ensures Reach(graph, proximal, y)
  {
    forall s | ElemSet(proximal) <= s && Closed(graph, s)
      ensures y in s
    {
      assert x in s;
    }
  }

  /** The reference result: the hits among the neighbours of the reached nodes. */
  ghost function Retrieved(graph: Graph, proximal: seq<string>, documents: seq<string>): set<string> {
    set x, y | x in graph && y in graph[x] && Reach(graph, proximal, x) && Hit(y, documents, proximal) :: y
  }

  /** A reached node has a neighbour that does not name a document. */
  ghost predicate SomeBad(graph: Graph, proximal: seq<string>, n: nat) {
    exists x, y :: x in graph && y in graph[x] && Reach(graph, proximal, x) && BadDoc(y, n)
  }

  /** The hits among the neighbours of the nodes of `v`. */
  function HitsFrom(graph: Graph, v: set<string>, documents: seq<string>, proximal: seq<string>): set<string> {
    set x, y | x in v && y in Neighbours(graph, x) && Hit(y, documents, proximal) :: y
  }

  /** Every node of the graph and every neighbour. */
  function AllNodes(graph: Graph): set<string> {
    graph.Keys + set x, y | x in graph && y in graph[x] :: y
  }

  /** Lines 59-69, the loop over the neighbours of one node: the hits, and
      the term neighbours to enqueue; `None` when a document node does not
      name a document. */
  method ScanNeighbours(neighbours: set<string>, proximal: seq<string>, documents: seq<string>)
    returns (r: Option<(set<string>, seq<string>)>)
    ensures r.None? <==> exists y :: y in neighbours && BadDoc(y, |documents|)
    ensures r.Some? ==> r.value.0 == set y | y in neighbours && Hit(y, documents, proximal)
    ensures r.Some? ==> forall y :: y in r.value.1 <==> y in neighbours && !IsDocNode(y)
  {
    var rest := neighbours;
    var hits: set<string> := {};
    var terms: seq<string> := [];
    while rest != {}
      invariant rest <= neighbours
      invariant forall y :: y in neighbours - rest ==> !BadDoc(y, |documents|)
      invariant forall y :: y in hits <==> y in neighbours - rest && Hit(y, documents, proximal)
      invariant forall y :: y in terms <==> y in neighbours - rest && !IsDocNode(y)
      decreases |rest|
    {
      var y :| y in rest;
      rest := rest - {y};
      if IsDocNode(y) {
        var i := DocIndex(y, |documents|);
        if i.None? {
          return None;
        }
        if AnyContains(proximal, Lower(documents[i.value])) {
          hits := hits + {y};
        }
      } else {
        terms := terms + [y];
      }
    }
    return Some((hits, terms));
  }

  /** Lines 49-71, `retrieve_documents`: a breadth-first walk from the
      proximal nodes. The result is the set of hits next to the nodes the
      walk reaches, or `None` when one of those neighbours does not name a
      document (Python raises there). */
  method RetrieveDocuments(proximal: seq<string>, graph: Graph, documents: seq<string>)
    returns (r: Option<set<string>>)
    ensures r.None? <==> SomeBad(graph, proximal, |documents|)
    ensures r.Some? ==> r.value == Retrieved(graph, proximal, documents)
    ensures (forall p :: p in proximal ==> p !in graph) ==> r == Some({})
  {
    ghost var universe := ElemSet(proximal) + AllNodes(graph);
    var queue := proximal;
    var visited: set<string> := {};
    var connected: set<string> := {};
    WalkStart(graph, proximal, documents, universe);
    while queue != []
      invariant Walk(graph, proximal, documents, universe, visited, queue, connected)
      decreases |universe - visited|, |queue|
    {
      var current := queue[0];
      if current in visited {
        WalkSkip(graph, proximal, documents, universe, visited, queue, connected);
        queue := queue[1..];
      } else {
        var scan := ScanNeighbours(Neighbours(graph, current), proximal, documents);
        if scan.None? {
          WalkFail(graph, proximal, documents, universe, visited, queue, connected);
          return None;
        }
        WalkVisit(graph, proximal, documents, universe, visited, queue, connected, scan.value.0, scan.value.1);
        visited := visited + {current};
        connected := connected + scan.value.0;
        queue := queue[1..] + scan.value.1;
      }
    }
    WalkEnd(graph, proximal, documents, universe, visited, connected);
    r := Some(connected);
  }

  /** The loop invariant of the walk: visited and queued nodes are reached,
      every proximal node and every term neighbour of a visited node is
      visited or queued, no visited node has a bad neighbour, and the result
      so far holds the hits next to the visited nodes. */
  ghost predicate Walk(graph: Graph, proximal: seq<string>, documents: seq<string>, universe: set<string>,
                       visited: set<string>, queue: seq<string>, connected: set<string>)
  {
    && universe == ElemSet(proximal) + AllNodes(graph)
    && visited <= universe
    && (forall x :: x in queue ==> x in universe)
    && (forall p :: p in proximal ==> p in visited || p in queue)
    && (forall x, y :: x in visited && y in Neighbours(graph, x) && !IsDocNode(y) ==> y in visited || y in queue)
    && (forall x :: x in visited ==> Reach(graph, proximal, x))
    && (forall x :: x in queue ==> Reach(graph, proximal, x))
    && (forall x, y :: x in visited && y in Neighbours(graph, x) ==> !BadDoc(y, |documents|))
    && connected == HitsFrom(graph, visited, documents, proximal)
  }

  lemma WalkStart(graph: Graph, proximal: seq<string>, documents: seq<string>, universe: set<string>)
    requires universe == ElemSet(proximal) + AllNodes(graph)
    ensures Walk(graph, proximal, documents, universe, {}, proximal, {})
  {
  }

  lemma WalkSkip(graph: Graph, proximal: seq<string>, documents: seq<string>, universe: set<string>,
                 visited: set<string>, queue: seq<string>, connected: set<string>)
    requires Walk(graph, proximal, documents, universe, visited, queue, connected)
    requires queue != [] && queue[0] in visited
    ensures Walk(graph, proximal, documents, universe, visited, queue[1..], connected)
  {
    assert forall z :: z in queue ==> z == queue[0] || z in queue[1..];
  }

  lemma WalkFail(graph: Graph, proximal: seq<string>, documents: seq<string>, universe: set<string>,
                 visited: set<string>, queue: seq<string>, connected: set<string>)
    requires Walk(graph, proximal, documents, universe, visited, queue, connected)
    requires queue != [] && exists y :: y in Neighbours(graph, queue[0]) && BadDoc(y, |documents|)
    ensures SomeBad(graph, proximal, |documents|)
    ensures exists p :: p in proximal && p in graph
  {
    assert Reach(graph, proximal, queue[0]);
    NoSeedInGraph(graph, proximal, documents);
  }

  lemma WalkVisit(graph: Graph, proximal: seq<string>, documents: seq<string>, universe: set<string>,
                  visited: set<string>, queue: seq<string>, connected: set<string>,
                  hits: set<string>, terms: seq<string>)
    requires Walk(graph, proximal, documents, universe, visited, queue, connected)
    requires queue != [] && queue[0] !in visited
    requires forall y :: y in Neighbours(graph, queue[0]) ==> !BadDoc(y, |documents|)
    requires hits == set y | y in Neighbours(graph, queue[0]) && Hit(y, documents, proximal)
    requires forall y :: y in terms <==> y in Neighbours(graph, queue[0]) && !IsDocNode(y)
    ensures queue[0] in universe - visited
    ensures Walk(graph, proximal, documents, universe, visited + {queue[0]}, queue[1..] + terms, connected + hits)
  {
    var c := queue[0];
    var v', q' := visited + {c}, queue[1..] + terms;
    assert forall z :: z in queue ==> z == c || z in queue[1..];
    assert forall z :: z in q' <==> z in queue[1..] || z in terms;
    forall y | y in terms
      ensures Reach(graph, proximal, y) && y in universe
    {
      ReachStep(graph, proximal, c, y);
    }
    HitsFromAdd(graph, visited, c, documents, proximal);
  }

  lemma WalkEnd(graph: Graph, proximal: seq<string>, documents: seq<string>, universe: set<string>,
                visited: set<string>, connected: set<string>)
    requires Walk(graph, proximal, documents, universe, visited, [], connected)
    ensures !SomeBad(graph, proximal, |documents|)
    ensures connected == Retrieved(graph, proximal, documents)
    ensures (forall p :: p in proximal ==> p !in graph) ==> connected == {}
  {
    assert Closed(graph, visited);
    ReachedAreVisited(graph, proximal, documents, visited);
    NoSeedInGraph(graph, proximal, documents);
  }

  lemma HitsFromAdd(graph: Graph, v: set<string>, c: string, documents: seq<string>, proximal: seq<string>)
    ensures HitsFrom(graph, v + {c}, documents, proximal)
         == HitsFrom(graph, v, documents, proximal) + set y | y in Neighbours(graph, c) && Hit(y, documents, proximal)
  {
  }

  /** Once the walk is over, the visited nodes are exactly the reached ones. */
  lemma ReachedAreVisited(graph: Graph, proximal: seq<string>, documents: seq<string>, visited: set<string>)
    requires ElemSet(proximal) <= visited && Closed(graph, visited)
    requires forall x :: x in visited ==> Reach(graph, proximal, x)
    requires forall x, y :: x in visited && y in Neighbours(graph, x) ==> !BadDoc(y, |documents|)
    ensures !SomeBad(graph, proximal, |documents|)
    ensures HitsFrom(graph, visited, documents, proximal) == Retrieved(graph, proximal, documents)
  {
  }

  /** With no proximal node in the graph nothing is reached beyond them. */
  lemma NoSeedInGraph(graph: Graph, proximal: seq<string>, documents: seq<string>)
    ensures (forall p :: p in proximal ==> p !in graph) ==>
      Retrieved(graph, proximal, documents) == {} && !SomeBad(graph, proximal, |documents|)
  {
    if forall p :: p in proximal ==> p !in graph {
      assert Closed(graph, ElemSet(proximal));
    }
  }

  // ---------------------------------------------------------------------------
  // Retrieval over the built graph

  /** Every document node of the built graph names a document, so the walk
      never raises on it. */
  lemma BuiltGraphNeverFails(cfg: Config, documents: seq<string>, proximal: seq<string>)
    requires AlnumPreserving(cfg)
    ensures !SomeBad(BuildGraph(cfg, documents), proximal, |documents|)
  {
    var g := BuildGraph(cfg, documents);
    forall x, y | x in g && y in g[x] && IsDocNode(y)
      ensures DocIndex(y, |documents|).Some?
    {
      BuiltDocNeighbour(cfg, documents, x, y);
      var d :| 0 <= d < |documents| && y == DocNode(d) && x in PreprocessAlnum(cfg, documents[d]);
      DocNodeRoundTrip(d, |documents|);
    }
  }

  /** Document `d` is retrieved exactly when the walk reaches one of its
      terms and its lower-cased text contains a proximal node: reaching the
      document is needed but not enough. */
  lemma RetrievedDocument(cfg: Config, documents: seq<string>, proximal: seq<string>, d: nat)
    requires AlnumPreserving(cfg)
    requires d < |documents|
    ensures var g := BuildGraph(cfg, documents);
      DocNode(d) in Retrieved(g, proximal, documents) <==>
        && (exists x :: x in PreprocessAlnum(cfg, documents[d]) && Reach(g, proximal, x))
        && AnyContains(proximal, Lower(documents[d]))
  {
    var g := BuildGraph(cfg, documents);
    var y := DocNode(d);
    var terms := PreprocessAlnum(cfg, documents[d]);
    DocNodeRoundTrip(d, |documents|);
    if y in Retrieved(g, proximal, documents) {
      var x :| x in g && y in g[x] && Reach(g, proximal, x) && Hit(y, documents, proximal);
      BuiltDocNeighbour(cfg, documents, x, y);
      var d' :| 0 <= d' < |documents| && y == DocNode(d') && x in PreprocessAlnum(cfg, documents[d']);
      DocNodeInjective(d, d');
    }
    if (exists x :: x in terms && Reach(g, proximal, x)) && AnyContains(proximal, Lower(documents[d])) {
      var x :| x in terms && Reach(g, proximal, x);
      GraphNodes(cfg, documents, x);
      GraphEdges(cfg, documents, x, y);
      assert Linked(terms, d, x, y);
      assert Hit(y, documents, proximal);
    }
  }

  /** Everything retrieved from the built graph is the node of a document. */
  lemma RetrievedAreDocuments(cfg: Config, documents: seq<string>, proximal: seq<string>, y: string)
    requires AlnumPreserving(cfg)
    ensures y in Retrieved(BuildGraph(cfg, documents), proximal, documents) ==>
      exists d :: 0 <= d < |documents| && y == DocNode(d)
  {
    var g := BuildGraph(cfg, documents);
    if y in Retrieved(g, proximal, documents) {
      var x :| x in g && y in g[x] && Reach(g, proximal, x) && Hit(y, documents, proximal);
      BuiltDocNeighbour(cfg, documents, x, y);
    }
  }

  /** A node the walk reaches is a proximal node or a term: the walk never
      passes through a document node it did not start from. */
  lemma ReachedAreTerms(graph: Graph, proximal: seq<string>, x: string)
    requires Reach(graph, proximal, x)
    ensures x in proximal || !IsDocNode(x)
  {
    var s := ElemSet(proximal) + set a, b | a in graph && b in graph[a] && !IsDocNode(b) :: b;
    assert Closed(graph, s);
  }
}
