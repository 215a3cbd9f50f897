/** The dependency graph of spec tasks and the search for a cycle in it. */
module TaskGraph {
  import opened Wrappers

  datatype SpecTask = SpecTask(id: string, description: string, dependsOn: seq<string>, owner: string)

  // ----- The dependency graph -----

  /** External references are not part of the graph. */
  predicate External(dep: string) {
    "ext:" <= dep
  }

  type Graph = map<string, seq<string>>

  /** Dependencies by task id; a later task with the same id replaces an earlier one. */
  function Adjacency(ts: seq<SpecTask>): Graph {
    if ts == [] then map[]
    else Adjacency(ts[..|ts| - 1])[ts[|ts| - 1].id := ts[|ts| - 1].dependsOn]
  }

  function IdsOf(ts: seq<SpecTask>): seq<string> {
    seq(|ts|, i requires 0 <= i < |ts| => ts[i].id)
  }

  function Edges(g: Graph, u: string): seq<string> {
    if u in g then g[u] else []
  }

  /** Every id that is a task or a dependency. */
  function Universe(g: Graph): set<string> {
    g.Keys + set u, d | u in g && d in g[u] :: d
  }

  predicate Dep(g: Graph, u: string, v: string) {
    v in Edges(g, u) && !External(v)
  }

  /** Each element depends on the next. */
  ghost predicate Steps(g: Graph, p: seq<string>) {
    forall i: nat | i + 1 < |p| :: Dep(g, p[i], p[i + 1])
  }

  ghost predicate Loop(g: Graph, p: seq<string>) {
    |p| >= 2 && p[0] == p[|p| - 1] && Steps(g, p)
  }

  ghost predicate HasLoop(g: Graph) {
    exists p :: Loop(g, p)
  }

  ghost predicate NoRepeats(p: seq<string>) {
    forall i, j | 0 <= i < j < |p| :: p[i] != p[j]
  }

  function Elements(p: seq<string>): set<string> {
    set v | v in p
  }

  // ----- Exhaustive search: the first simple path that runs into itself -----

  /** Extends path by deps in order, following each to the end, until a dependency lies on the path. */
  function Search(g: Graph, path: seq<string>, deps: seq<string>): Option<seq<string>>
    requires forall d | d in deps :: d in Universe(g)
    decreases |Universe(g) - Elements(path)|, |deps|
  {
    if deps == [] then None
    else
      var v := deps[0];
      if External(v) then Search(g, path, deps[1..])
      else if v in path then Some(path + [v])
      else
        Narrower(Universe(g), path, v);
        EdgesKnown(g, v);
        match Search(g, path + [v], Edges(g, v))
        case Some(lasso) => Some(lasso)
        case None => Search(g, path, deps[1..])
  }

  function FirstLasso(g: Graph, roots: seq<string>): Option<seq<string>> {
    if roots == [] then None
    else
      match SearchFrom(g, [], roots[0])
      case Some(lasso) => Some(lasso)
      case None => FirstLasso(g, roots[1..])
  }

  function SearchFrom(g: Graph, path: seq<string>, u: string): Option<seq<string>> {
    EdgesKnown(g, u);
    Search(g, path + [u], Edges(g, u))
  }

  /** The search through u from its dependency number k on. */
  function SearchRest(g: Graph, path: seq<string>, u: string, k: nat): Option<seq<string>>
    requires k <= |Edges(g, u)|
  {
    RestKnown(g, u, k);
    Search(g, path + [u], Edges(g, u)[k..])
  }

  /** What one dependency v of the last element of path leads to. */
  function Follow(g: Graph, path: seq<string>, v: string): Option<seq<string>> {
    if v in path then Some(path + [v]) else SearchFrom(g, path, v)
  }

  lemma {:induction false} RestKnown(g: Graph, u: string, k: nat)
    requires k <= |Edges(g, u)|
    ensures forall d | d in Edges(g, u)[k..] :: d in Universe(g)
  {
    EdgesKnown(g, u);
    forall d | d in Edges(g, u)[k..] ensures d in Universe(g) {
      assert d in Edges(g, u);
    }
  }

  lemma {:induction false} RestAll(g: Graph, path: seq<string>, u: string)
    ensures SearchRest(g, path, u, 0) == SearchFrom(g, path, u)
  {
    assert Edges(g, u)[0..] == Edges(g, u);
  }

  lemma {:induction false} RestStep(g: Graph, path: seq<string>, u: string, k: nat)
    requires k <= |Edges(g, u)|
    ensures SearchRest(g, path, u, k) ==
            if k == |Edges(g, u)| then None
            else
              var v := Edges(g, u)[k];
              if External(v) || Follow(g, path + [u], v) == None then SearchRest(g, path, u, k + 1)
              else Follow(g, path + [u], v)
  {
    var deps := Edges(g, u)[k..];
    RestKnown(g, u, k);
    if k < |Edges(g, u)| {
      assert deps[0] == Edges(g, u)[k] && deps[1..] == Edges(g, u)[k + 1..];
    }
  }

  lemma {:induction false} EdgesKnown(g: Graph, u: string)
    ensures forall d | d in Edges(g, u) :: d in Universe(g)
  {
  }

  lemma {:induction false} Narrower(all: set<string>, path: seq<string>, v: string)
    requires v in all && v !in path
    ensures |all - Elements(path + [v])| < |all - Elements(path)|
  {
    assert Elements(path + [v]) == Elements(path) + {v};
    assert all - Elements(path + [v]) == (all - Elements(path)) - {v};
  }

  /** No repetitions except that the last element returns to one before it. */
  ghost predicate Returns(l: seq<string>) {
    |l| >= 2 && NoRepeats(l[..|l| - 1]) && l[|l| - 1] in l[..|l| - 1]
  }

  ghost predicate Lasso(g: Graph, l: seq<string>) {
    Steps(g, l) && Returns(l)
  }

  lemma {:induction false} Extend(g: Graph, path: seq<string>, v: string)
    requires path != [] && Steps(g, path) && NoRepeats(path) && Dep(g, path[|path| - 1], v)
    ensures Steps(g, path + [v])
    ensures if v in path then Lasso(g, path + [v]) else NoRepeats(path + [v])
  {
    var more := path + [v];
    assert more[..|path|] == path && more[|path|] == v;
    forall i: nat | i + 1 < |more| ensures Dep(g, more[i], more[i + 1]) {
      if i + 1 < |path| {
        assert Dep(g, path[i], path[i + 1]);
      }
    }
  }

  lemma {:induction false} SearchIsLasso(g: Graph, path: seq<string>, u: string, k: nat)
    requires Steps(g, path + [u]) && NoRepeats(path + [u]) && k <= |Edges(g, u)|
    ensures SearchRest(g, path, u, k).Some? ==> Lasso(g, SearchRest(g, path, u, k).value)
    decreases |Universe(g) - Elements(path + [u])|, |Edges(g, u)| - k
  {
    RestStep(g, path, u, k);
    if k < |Edges(g, u)| {
      var v := Edges(g, u)[k];
      SearchIsLasso(g, path, u, k + 1);
      if !External(v) {
        Extend(g, path + [u], v);
        if v !in path + [u] {
          EdgesKnown(g, u);
          Narrower(Universe(g), path + [u], v);
          RestAll(g, path + [u], v);
          SearchIsLasso(g, path + [u], v, 0);
        }
      }
    }
  }

  /** v is the first dependency of u that, behind path and u, leads to anything. */
  ghost predicate FirstChoice(g: Graph, path: seq<string>, u: string, v: string) {
    exists k: nat :: k < |Edges(g, u)| && Edges(g, u)[k] == v && Fruitless(g, path, u, k)
  }

  /** The first k dependencies of u lead nowhere. */
  ghost predicate Fruitless(g: Graph, path: seq<string>, u: string, k: nat)
    requires k <= |Edges(g, u)|
  {
    forall m | 0 <= m < k :: External(Edges(g, u)[m]) || Follow(g, path + [u], Edges(g, u)[m]) == None
  }

  /** From position n on every step of l is a first choice. */
  ghost predicate Choices(g: Graph, l: seq<string>, n: nat) {
    forall i | n <= i < |l| - 1 :: FirstChoice(g, l[..i], l[i], l[i + 1])
  }

  lemma {:induction false} MoreChoices(g: Graph, l: seq<string>, path: seq<string>, u: string, v: string)
    requires |path| + 1 < |l| && path + [u, v] <= l && FirstChoice(g, path, u, v) && Choices(g, l, |path| + 1)
    ensures Choices(g, l, |path|)
  {
    assert l[..|path|] == path && l[|path|] == u && l[|path| + 1] == v;
  }

  lemma {:induction false} SearchIsFirst(g: Graph, path: seq<string>, u: string, k: nat)
    requires k <= |Edges(g, u)| && SearchRest(g, path, u, k).Some? && Fruitless(g, path, u, k)
    ensures var l := SearchRest(g, path, u, k).value; |path| + 1 < |l| && path + [u] <= l && Choices(g, l, |path|)
    decreases |Universe(g) - Elements(path + [u])|, |Edges(g, u)| - k
  {
    RestStep(g, path, u, k);
    var l, v := SearchRest(g, path, u, k).value, Edges(g, u)[k];
    if External(v) || Follow(g, path + [u], v) == None {
      SearchIsFirst(g, path, u, k + 1);
    } else {
      assert FirstChoice(g, path, u, v);
      if v !in path + [u] {
        EdgesKnown(g, u);
        Narrower(Universe(g), path + [u], v);
        RestAll(g, path + [u], v);
        SearchIsFirst(g, path + [u], v, 0);
      }
      assert path + [u, v] == path + [u] + [v];
      MoreChoices(g, l, path, u, v);
    }
  }

  /** What is found starts at the first task, and goes on with the first dependency, that leads to anything. */
  lemma {:induction false} FirstLassoIsFirst(g: Graph, roots: seq<string>) returns (r: nat)
    requires FirstLasso(g, roots).Some?
    ensures var l := FirstLasso(g, roots).value;
            && r < |roots| && |l| >= 2 && l[0] == roots[r] && (forall q | 0 <= q < r :: SearchFrom(g, [], roots[q]) == None)
            && Choices(g, l, 0)
  {
    if SearchFrom(g, [], roots[0]).Some? {
      RestAll(g, [], roots[0]);
      SearchIsFirst(g, [], roots[0], 0);
      r := 0;
      assert ([] + [roots[0]])[0] == roots[0];
    } else {
      r := FirstLassoIsFirst(g, roots[1..]);
      r := r + 1;
    }
  }

  lemma {:induction false} FirstLassoIsLasso(g: Graph, roots: seq<string>)
    ensures FirstLasso(g, roots).Some? ==> Lasso(g, FirstLasso(g, roots).value)
  {
    if roots != [] {
      RestAll(g, [], roots[0]);
      SearchIsLasso(g, [], roots[0], 0);
      FirstLassoIsLasso(g, roots[1..]);
    }
  }

  /** A search that finds nothing has tried every dependency to the end. */
  lemma {:induction false} NothingBehind(g: Graph, path: seq<string>, deps: seq<string>, v: string)
    requires forall d | d in deps :: d in Universe(g)
    requires Search(g, path, deps) == None && v in deps && !External(v)
    ensures v !in path && SearchFrom(g, path, v) == None
    decreases |deps|
  {
    if v != deps[0] {
      NothingBehind(g, path, deps[1..], v);
    }
  }

  lemma {:induction false} NothingAlong(g: Graph, p: seq<string>, n: nat)
    requires Steps(g, p) && n < |p| && SearchFrom(g, [], p[0]) == None
    ensures SearchFrom(g, p[..n], p[n]) == None
    ensures n > 0 ==> p[n] !in p[..n]
  {
    if n == 0 {
      assert p[..0] == [];
    } else {
      NothingAlong(g, p, n - 1);
      assert p[..n - 1] + [p[n - 1]] == p[..n];
      assert Dep(g, p[n - 1], p[n - 1 + 1]);
      EdgesKnown(g, p[n - 1]);
      NothingBehind(g, p[..n], Edges(g, p[n - 1]), p[n]);
    }
  }

  lemma {:induction false} FirstLassoTriesAll(g: Graph, roots: seq<string>, u: string)
    requires FirstLasso(g, roots) == None && u in roots
    ensures SearchFrom(g, [], u) == None
  {
    if u != roots[0] {
      FirstLassoTriesAll(g, roots[1..], u);
    }
  }

  /** The part of a lasso that goes round: from the element it returns to up to the end. */
  function Walk(l: seq<string>): seq<string> {
    if |l| < 2 then []
    else if l[0] == l[|l| - 1] then l[..|l| - 1]
    else Walk(l[1..])
  }

  /** What is reported of a lasso: the start twice, then the rest of the way round. */
  function Reported(lasso: Option<seq<string>>): Option<seq<string>> {
    match lasso
    case None => None
    case Some(l) => if l == [] then None else Some([l[|l| - 1]] + Walk(l))
  }

  lemma {:induction false} WalkStarts(l: seq<string>) returns (k: nat)
    requires |l| >= 2 && l[|l| - 1] in l[..|l| - 1]
    ensures k < |l| - 1 && l[k] == l[|l| - 1] && Walk(l) == l[k..|l| - 1]
  {
    if l[0] == l[|l| - 1] {
      k := 0;
    } else {
      assert l[1..][..|l| - 2] == l[..|l| - 1][1..];
      k := WalkStarts(l[1..]);
      k := k + 1;
    }
  }

  /** Walking round a lasso and back to the start is a loop of the graph, with no other repetition. */
  lemma {:induction false} WalkIsLoop(g: Graph, l: seq<string>)
    requires Lasso(g, l)
    ensures Walk(l) != [] && Walk(l)[0] == l[|l| - 1]
    ensures Loop(g, Walk(l) + [l[|l| - 1]]) && NoRepeats(Walk(l))
  {
    var k := WalkStarts(l);
    assert Walk(l) + [l[|l| - 1]] == l[k..];
    forall i: nat | i + 1 < |l[k..]| ensures Dep(g, l[k..][i], l[k..][i + 1]) {
      assert Dep(g, l[k + i], l[k + i + 1]);
    }
    forall i, j | 0 <= i < j < |Walk(l)| ensures Walk(l)[i] != Walk(l)[j] {
      assert l[..|l| - 1][k + i] != l[..|l| - 1][k + j];
    }
  }

  /** Searching from every task finds something iff the dependencies have a loop. */
  lemma {:induction false} FoundIffLoop(g: Graph, roots: seq<string>)
    requires forall u | u in g :: u in roots
    ensures FirstLasso(g, roots).Some? <==> HasLoop(g)
  {
    if FirstLasso(g, roots).Some? {
      FirstLassoIsLasso(g, roots);
      WalkIsLoop(g, FirstLasso(g, roots).value);
    } else if HasLoop(g) {
      var p :| Loop(g, p);
      assert Dep(g, p[0], p[0 + 1]);
      FirstLassoTriesAll(g, roots, p[0]);
      NothingAlong(g, p, |p| - 1);
    }
  }

  // ----- The coloured search -----

  datatype Colour = White | Grey | Black

  /** The order in which tasks turn black: everything a task depends on comes before it. */
  ghost predicate Finished(g: Graph, order: seq<string>) {
    && NoRepeats(order)
    && (forall i: nat, v | i < |order| && Dep(g, order[i], v) :: v in order[..i])
  }

  /** A finished task leads nowhere, whatever path is tried through it. */
  lemma {:induction false} FinishedIsBarren(g: Graph, path: seq<string>, order: seq<string>, i: nat, deps: seq<string>)
    requires Finished(g, order) && i < |order|
    requires forall j | 0 <= j < i :: order[j] !in path
    requires forall d | d in deps :: d in Edges(g, order[i]) && d in Universe(g)
    ensures Search(g, path, deps) == None
    decreases i, |deps|
  {
    if deps != [] {
      var v := deps[0];
      FinishedIsBarren(g, path, order, i, deps[1..]);
      if !External(v) {
        assert Dep(g, order[i], v);
        assert v in order[..i];
        var j :| 0 <= j < i && order[j] == v;
        EdgesKnown(g, v);
        FinishedIsBarren(g, path + [v], order, j, Edges(g, v));
      }
    }
  }

  lemma {:induction false} BlackIsBarren(g: Graph, path: seq<string>, order: seq<string>, v: string)
    requires Finished(g, order) && v in order
    requires forall u | u in order :: u !in path
    ensures SearchFrom(g, path, v) == None
  {
    var j :| 0 <= j < |order| && order[j] == v;
    EdgesKnown(g, v);
    FinishedIsBarren(g, path + [v], order, j, Edges(g, v));
  }

  lemma {:induction false} FinishedAppend(g: Graph, order: seq<string>, u: string)
    requires Finished(g, order) && u !in order
    requires forall v | Dep(g, u, v) :: v in order
    ensures Finished(g, order + [u])
  {
    var more := order + [u];
    forall i: nat, v | i < |more| && Dep(g, more[i], v) ensures v in more[..i] {
      if i < |order| {
        assert v in order[..i] && more[..i] == order[..i];
      } else {
        assert more[..i] == order;
      }
    }
  }

  function ColourIn(colour: map<string, Colour>, v: string): Colour {
    if v in colour then colour[v] else White
  }

  /** Parents lead back along the path. */
  ghost predicate Linked(parent: map<string, string>, path: seq<string>) {
    forall i | 0 < i < |path| :: path[i] in parent && parent[path[i]] == path[i - 1]
  }

  /** Grey is exactly the path and black exactly the finished tasks. */
  ghost predicate Coloured(colour: map<string, Colour>, path: seq<string>, order: seq<string>) {
    && (forall v {:trigger ColourIn(colour, v)} :: ColourIn(colour, v) == Grey <==> v in path)
    && (forall v {:trigger ColourIn(colour, v)} :: ColourIn(colour, v) == Black <==> v in order)
  }

  /** Every white task of the graph is still awaited. */
  ghost predicate AwaitsWhite(g: Graph, colour: map<string, Colour>, awaited: set<string>) {
    forall v {:trigger ColourIn(colour, v)} | v in Universe(g) && ColourIn(colour, v) == White :: v in awaited
  }

  lemma {:induction false} AwaitsFewer(g: Graph, colour: map<string, Colour>, awaited: set<string>, u: string, c: Colour)
    requires AwaitsWhite(g, colour, awaited) && c != White
    ensures AwaitsWhite(g, colour[u := c], awaited - {u})
  {
    forall v | v in Universe(g) && ColourIn(colour[u := c], v) == White ensures v in awaited - {u} {
      assert ColourIn(colour, v) == White;
    }
  }

  lemma {:induction false} Apart(colour: map<string, Colour>, path: seq<string>, order: seq<string>)
    requires Coloured(colour, path, order)
    ensures forall v | v in order :: v !in path
  {
    forall v | v in order ensures v !in path {
      assert ColourIn(colour, v) == Black;
    }
  }

  lemma {:induction false} EnterColours(colour: map<string, Colour>, path: seq<string>, order: seq<string>, u: string)
    requires Coloured(colour, path, order) && ColourIn(colour, u) == White
    ensures Coloured(colour[u := Grey], path + [u], order)
  {
    forall v
      ensures ColourIn(colour[u := Grey], v) == Grey <==> v in path + [u]
      ensures ColourIn(colour[u := Grey], v) == Black <==> v in order
    {
      assert ColourIn(colour[u := Grey], v) == if v == u then Grey else ColourIn(colour, v);
    }
  }

  lemma {:induction false} LeaveColours(colour: map<string, Colour>, path: seq<string>, order: seq<string>, u: string)
    requires Coloured(colour, path + [u], order) && u !in path
    ensures Coloured(colour[u := Black], path, order + [u])
  {
    forall v
      ensures ColourIn(colour[u := Black], v) == Grey <==> v in path
      ensures ColourIn(colour[u := Black], v) == Black <==> v in order + [u]
    {
      assert ColourIn(colour[u := Black], v) == if v == u then Black else ColourIn(colour, v);
      assert v in path + [u] <==> v in path || v == u;
    }
  }

  /** The first k dependencies of u are finished, as far as they are part of the graph. */
  ghost predicate Settled(g: Graph, u: string, k: nat, order: seq<string>)
    requires k <= |Edges(g, u)|
  {
    forall m | 0 <= m < k :: External(Edges(g, u)[m]) || Edges(g, u)[m] in order
  }

  lemma {:induction false} SettledNext(g: Graph, u: string, k: nat, before: seq<string>, order: seq<string>)
    requires k < |Edges(g, u)| && Settled(g, u, k, before) && before <= order
    requires External(Edges(g, u)[k]) || Edges(g, u)[k] in order
    ensures Settled(g, u, k + 1, order)
  {
  }

  class CycleSearch {
    const graph: Graph
    var colour: map<string, Colour>
    var parent: map<string, string>
    var cycleStart: string
    var cycleEnd: string
    ghost var order: seq<string>
    ghost var awaited: set<string>

    constructor (graph: Graph, colour: map<string, Colour>)
      requires forall v | v in colour :: colour[v] == White
      ensures this.graph == graph && Valid([])
    {
      this.graph, this.colour := graph, colour;
      parent, cycleStart, cycleEnd := map[], "", "";
      order, awaited := [], Universe(graph);
    }

    ghost predicate Valid(path: seq<string>)
      reads this
    {
      && NoRepeats(path) && Finished(graph, order) && Coloured(colour, path, order) && Linked(parent, path)
      && AwaitsWhite(graph, colour, awaited)
    }

    /** The back edge that closes lasso l has been recorded. */
    ghost predicate Closed(l: seq<string>)
      reads this
    {
      |l| >= 2 && cycleEnd == l[|l| - 2] && cycleStart == l[|l| - 1] && Linked(parent, l[..|l| - 1])
    }

    /** Skipping black tasks loses nothing: the answer is that of the exhaustive search from the same path. */
    method Dfs(u: string, ghost path: seq<string>) returns (found: bool)
      requires Valid(path) && ColourIn(colour, u) == White && u in Universe(graph)
      requires path != [] ==> u in parent && parent[u] == path[|path| - 1]
      modifies this
      ensures found <==> SearchFrom(graph, path, u).Some?
      ensures found ==> Closed(SearchFrom(graph, path, u).value)
      ensures !found ==> Valid(path) && old(order) <= order && |awaited| <= old(|awaited|) && u in order
      decreases |awaited|, 0
    {
      ghost var before := order;
      Enter(u, path);
      var deps := Edges(graph, u);
      RestAll(graph, path, u);
      for k := 0 to |deps|
        invariant Valid(path + [u]) && before <= order && |awaited| < old(|awaited|) && Settled(graph, u, k, order)
        invariant SearchFrom(graph, path, u) == SearchRest(graph, path, u, k)
      {
        found := Turn(u, k, path);
        if found {
          return;
        }
      }
      RestStep(graph, path, u, |deps|);
      Leave(u, path);
      found := false;
    }

    /** One turn of the loop over the dependencies of u. */
    method Turn(u: string, k: nat, ghost path: seq<string>) returns (found: bool)
      requires Valid(path + [u]) && k < |Edges(graph, u)| && Settled(graph, u, k, order)
      modifies this
      ensures var rest := SearchRest(graph, path, u, k);
              if found then rest.Some? && Closed(rest.value)
              else Valid(path + [u]) && old(order) <= order && |awaited| <= old(|awaited|) && Settled(graph, u, k + 1, order) &&
                   rest == SearchRest(graph, path, u, k + 1)
      decreases |awaited|, 2
    {
      RestStep(graph, path, u, k);
      ghost var before := order;
      found := false;
      var v := Edges(graph, u)[k];
      if !External(v) {
        found := Visit(u, v, path + [u]);
      }
      if !found {
        SettledNext(graph, u, k, before, order);
      }
    }

    /** A task no earlier start has reached is searched from; any other leads nowhere. */
    method Start(u: string) returns (found: bool)
      requires Valid([]) && u in Universe(graph)
      modifies this
      ensures found <==> SearchFrom(graph, [], u).Some?
      ensures found ==> Closed(SearchFrom(graph, [], u).value)
      ensures !found ==> Valid([])
    {
      found := false;
      if ColourIn(colour, u) == White {
        found := Dfs(u, []);
      } else {
        BlackIsBarren(graph, [], order, u);
      }
    }

    /** One dependency v of u: go on from a white task, record the back edge to a grey one, skip a black one. */
    method Visit(u: string, v: string, ghost path: seq<string>) returns (found: bool)
      requires Valid(path) && path != [] && path[|path| - 1] == u && Dep(graph, u, v)
      modifies this
      ensures found <==> Follow(graph, path, v).Some?
      ensures found ==> Closed(Follow(graph, path, v).value)
      ensures !found ==> Valid(path) && old(order) <= order && |awaited| <= old(|awaited|) && v in order
      decreases |awaited|, 1
    {
      match ColourIn(colour, v) {
        case White =>
          assert v !in path;
          EdgesKnown(graph, u);
          parent := parent[v := u];
          found := Dfs(v, path);
        case Grey =>
          cycleStart := v;
          cycleEnd := u;
          assert (path + [v])[..|path|] == path;
          found := true;
        case Black =>
          Apart(colour, path, order);
          BlackIsBarren(graph, path, order, v);
          found := false;
      }
    }

    method Enter(u: string, ghost path: seq<string>)
      requires Valid(path) && ColourIn(colour, u) == White
      requires path != [] ==> u in parent && parent[u] == path[|path| - 1]
      requires u in Universe(graph)
      modifies this`colour, this`awaited
      ensures Valid(path + [u]) && |awaited| < old(|awaited|)
    {
      EnterColours(colour, path, order, u);
      AwaitsFewer(graph, colour, awaited, u, Grey);
      assert u in awaited;
      colour := colour[u := Grey];
      awaited := awaited - {u};
    }

    method Leave(u: string, ghost path: seq<string>)
      requires Valid(path + [u])
      requires Settled(graph, u, |Edges(graph, u)|, order)
      modifies this`colour, this`order
      ensures Valid(path) && order == old(order) + [u]
    {
      assert (path + [u])[|path|] == u;
      assert path == (path + [u])[..|path|];
      Apart(colour, path + [u], order);
      assert u in path + [u];
      FinishedAppend(graph, order, u);
      LeaveColours(colour, path, order, u);
      AwaitsFewer(graph, colour, awaited, u, Black);
      order := order + [u];
      colour := colour[u := Black];
    }

    /** From the end of the cycle back along the parents to its start, the start once more, all turned round. */
    method CyclePath(ghost l: seq<string>) returns (path: seq<string>)
      requires Closed(l) && Returns(l)
      ensures Some(path) == Reported(Some(l))
    {
      ghost var k := WalkStarts(l);
      ghost var j, prefix := |l| - 2, l[..|l| - 1];
      var cur := cycleEnd;
      path := [cur];
      while cur != cycleStart
        invariant k <= j < |prefix| && cur == prefix[j]
        invariant |path| == |prefix| - j && forall m | 0 <= m < |path| :: path[m] == prefix[|prefix| - 1 - m]
        decreases j
      {
        if cur !in parent {
          break;
        }
        cur := parent[cur];
        path := path + [cur];
        j := j - 1;
      }
      path := path + [cycleStart];
      path := Turned(path);
      assert Walk(l) == prefix[k..];
      assert path == [l[|l| - 1]] + Walk(l);
    }
  }

  method Turned(path: seq<string>) returns (r: seq<string>)
    ensures |r| == |path| && forall m | 0 <= m < |path| :: r[m] == path[|path| - 1 - m]
  {
    r := path;
    var i, j := 0, |path| - 1;
    while i < j
      invariant 0 <= i && j == |path| - 1 - i && i <= j + 1 && |r| == |path|
      invariant forall m | 0 <= m < i || j < m < |path| :: r[m] == path[|path| - 1 - m]
      invariant forall m | i <= m <= j :: r[m] == path[m]
    {
      r := r[i := r[j]][j := r[i]];
      i, j := i + 1, j - 1;
    }
  }

  lemma {:induction false} AdjacencyKeys(ts: seq<SpecTask>)
    ensures forall u :: u in Adjacency(ts) <==> u in IdsOf(ts)
  {
    if ts != [] {
      var n := |ts| - 1;
      AdjacencyKeys(ts[..n]);
      assert IdsOf(ts) == IdsOf(ts[..n]) + [ts[n].id];
    }
  }

  lemma {:induction false} RootStep(g: Graph, roots: seq<string>, i: nat)
    requires i < |roots|
    ensures LassoFrom(g, roots, i) ==
            if SearchFrom(g, [], roots[i]).Some? then SearchFrom(g, [], roots[i]) else LassoFrom(g, roots, i + 1)
  {
    assert roots[i..][1..] == roots[i + 1..];
  }

  lemma {:induction false} RootAll(g: Graph, roots: seq<string>)
    ensures LassoFrom(g, roots, 0) == FirstLasso(g, roots) && LassoFrom(g, roots, |roots|) == None
  {
    assert roots[0..] == roots;
  }

  function LassoFrom(g: Graph, roots: seq<string>, i: nat): Option<seq<string>>
    requires i <= |roots|
  {
    FirstLasso(g, roots[i..])
  }

  /** Searching from every task finds something, and then a lasso, iff the tasks have a loop. */
  lemma {:induction false} Verdict(ts: seq<SpecTask>)
    ensures var found := FirstLasso(Adjacency(ts), IdsOf(ts));
            && (found.Some? <==> HasLoop(Adjacency(ts)))
            && (found.Some? ==> Returns(found.value))
  {
    AdjacencyKeys(ts);
    FoundIffLoop(Adjacency(ts), IdsOf(ts));
    FirstLassoIsLasso(Adjacency(ts), IdsOf(ts));
  }

  lemma {:induction false} IsNode(ts: seq<SpecTask>, i: nat)
    requires i < |ts|
    ensures ts[i].id in Universe(Adjacency(ts))
  {
    AdjacencyKeys(ts);
    assert IdsOf(ts)[i] == ts[i].id;
  }

  /** The colour search reports what the exhaustive search finds first; it reports nothing iff there is no loop. */
  method DetectCycle(ts: seq<SpecTask>) returns (path: Option<seq<string>>)
    ensures path == Reported(FirstLasso(Adjacency(ts), IdsOf(ts)))
    ensures path.None? <==> !HasLoop(Adjacency(ts))
  {
    var adj, colour := BuildGraph(ts);
    ghost var ids := IdsOf(ts);
    Verdict(ts);
    var s := new CycleSearch(adj, colour);
    RootAll(adj, ids);
    for i := 0 to |ts|
      invariant s.Valid([]) && fresh(s)
      invariant FirstLasso(adj, ids) == LassoFrom(adj, ids, i)
    {
      RootStep(adj, ids, i);
      IsNode(ts, i);
      var found := s.Start(ts[i].id);
      if found {
        var p := s.CyclePath(FirstLasso(adj, ids).value);
        return Some(p);
      }
    }
    RootAll(adj, ids);
    path := None;
  }

  method BuildGraph(ts: seq<SpecTask>) returns (adj: Graph, colour: map<string, Colour>)
    ensures adj == Adjacency(ts)
    ensures forall v | v in colour :: colour[v] == White
  {
    adj, colour := map[], map[];
    for i := 0 to |ts|
      invariant adj == Adjacency(ts[..i])
      invariant forall v | v in colour :: colour[v] == White
    {
      assert ts[..i + 1][..i] == ts[..i];
      adj := adj[ts[i].id := ts[i].dependsOn];
      colour := colour[ts[i].id := White];
    }
    assert ts[..|ts|] == ts;
  }

  /** Starting twice is going round iff there is only the start. */
  lemma {:induction false} TwiceInFrontIff(g: Graph, w: seq<string>)
    requires w != [] && NoRepeats(w) && Loop(g, w + [w[0]])
    ensures Loop(g, [w[0]] + w) <==> |w| == 1
  {
    if |w| > 1 {
      assert ([w[0]] + w)[|w|] == w[|w| - 1];
    } else {
      assert [w[0]] + w == w + [w[0]];
    }
  }

  lemma {:induction false} ReportIsLoopIff(g: Graph, l: seq<string>)
    requires Lasso(g, l)
    ensures Loop(g, Reported(Some(l)).value) <==> l[|l| - 2] == l[|l| - 1]
  {
    WalkIsLoop(g, l);
    TwiceInFrontIff(g, Walk(l));
    WalkEnds(l);
  }

  lemma {:induction false} WalkEnds(l: seq<string>)
    requires Returns(l)
    ensures Walk(l) != [] && (|Walk(l)| == 1 <==> l[|l| - 2] == l[|l| - 1])
  {
    var k := WalkStarts(l);
    var prefix := l[..|l| - 1];
    assert prefix[k] == l[|l| - 1] && prefix[|prefix| - 1] == l[|l| - 2];
  }

  /** The report runs from start to end and back to start iff the first path that closes does so at a self-dependency. */
  lemma {:induction false} DocumentedReportIff(ts: seq<SpecTask>)
    requires HasLoop(Adjacency(ts))
    ensures var first := FirstLasso(Adjacency(ts), IdsOf(ts));
            && first.Some? && |first.value| >= 2
            && (Loop(Adjacency(ts), Reported(first).value) <==> first.value[|first.value| - 2] == first.value[|first.value| - 1])
  {
    Verdict(ts);
    FirstLassoIsLasso(Adjacency(ts), IdsOf(ts));
    ReportIsLoopIff(Adjacency(ts), FirstLasso(Adjacency(ts), IdsOf(ts)).value);
  }

  const TWO_TASKS := [SpecTask("a", "first", ["b"], ""), SpecTask("b", "second", ["a"], "")]

  lemma {:induction false} LassoOfTwo()
    ensures SearchFrom(Adjacency(TWO_TASKS), [], "a") == Some(["a", "b", "a"])
  {
    var g := Adjacency(TWO_TASKS);
    TwoEdges();
    RestAll(g, [], "a");
    RestStep(g, [], "a", 0);
    RestAll(g, ["a"], "b");
    RestStep(g, ["a"], "b", 0);
    assert [] + ["a"] == ["a"] && ["a"] + ["b"] + ["a"] == ["a", "b", "a"];
  }

  lemma {:induction false} WalkOfTwo()
    ensures Walk(["a", "b", "a"]) == ["a", "b"]
  {
  }

  /** Two tasks that depend on each other are reported as a, a, b. */
  lemma {:induction false} ReportOfTwo()
    ensures Reported(FirstLasso(Adjacency(TWO_TASKS), IdsOf(TWO_TASKS))) == Some(["a", "a", "b"])
    ensures !Loop(Adjacency(TWO_TASKS), ["a", "a", "b"])
  {
    var ids := IdsOf(TWO_TASKS);
    LassoOfTwo();
    WalkOfTwo();
    RootAll(Adjacency(TWO_TASKS), ids);
    RootStep(Adjacency(TWO_TASKS), ids, 0);
    assert ids[0] == "a";
    assert ["a"] + ["a", "b"] == ["a", "a", "b"];
  }

  lemma {:induction false} TwoEdges()
    ensures Edges(Adjacency(TWO_TASKS), "a") == ["b"] && Edges(Adjacency(TWO_TASKS), "b") == ["a"]
    ensures !External("a") && !External("b")
  {
    assert TWO_TASKS[..1] == [TWO_TASKS[0]] && TWO_TASKS[..1][..0] == [];
    assert Adjacency(TWO_TASKS[..1]) == map["a" := ["b"]];
  }
}
