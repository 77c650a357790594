/** _require_unique, _require_refs and _assert_phase_dag of operation_semantics.py: the phases of an operation
    have distinct ids and a dependency relation without cycles. Identifiers are taken as already stripped. */
module PhaseDag {

  type Id = string
  type Graph = map<Id, seq<Id>>

  datatype Phase = Phase(phaseId: Id, dependsOn: seq<Id>)

  datatype Error = NoPhases | EmptyId(index: nat) | DuplicateId(index: nat) | UnknownReference(ref: Id)
    | SelfDependency(id: Id) | Cycle(id: Id)

  datatype Result<+T> = Ok(value: T) | Raise(error: Error)

  // ---------------------------------------------------------------- the relation

  /** Every dependency is a phase of the graph. */
  predicate IsClosed(g: Graph) {
    forall u, v :: u in g && v in g[u] ==> v in g
  }

  /** A walk along dependencies: each node depends on the next. */
  predicate IsWalk(g: Graph, p: seq<Id>) {
    forall i :: 0 <= i < |p| - 1 ==> p[i] in g && p[i + 1] in g[p[i]]
  }

  predicate IsCycle(g: Graph, p: seq<Id>) {
    |p| >= 2 && IsWalk(g, p) && p[0] == p[|p| - 1]
  }

  ghost predicate HasCycle(g: Graph) {
    exists p :: IsCycle(g, p)
  }

  predicate Distinct(s: seq<Id>) {
    forall i, j :: 0 <= i < j < |s| ==> s[i] != s[j]
  }

  function Elements(s: seq<Id>): set<Id> {
    set x | x in s
  }

  /** Dependencies come before the phases that need them. */
  predicate IsTopological(g: Graph, order: seq<Id>) {
    forall i, v :: 0 <= i < |order| && order[i] in g && v in g[order[i]] ==> v in order[..i]
  }

  function IndexOf(s: seq<Id>, x: Id): (i: nat)
    requires x in s
    ensures i < |s| && s[i] == x
  {
    if s[0] == x then 0 else 1 + IndexOf(s[1..], x)
  }

  lemma {:induction false} FirstIndex(s: seq<Id>, x: Id, j: nat)
    requires j < |s| && s[j] == x
    ensures IndexOf(s, x) <= j
  {
    if s[0] != x { FirstIndex(s[1..], x, j - 1); }
  }

  /** Along a walk the position in a topological order goes down. */
  lemma {:induction false} WalkDescends(g: Graph, order: seq<Id>, p: seq<Id>, k: nat)
    requires IsTopological(g, order) && IsWalk(g, p) && 0 < k < |p| && p[0] in order
    ensures p[k] in order && IndexOf(order, p[k]) < IndexOf(order, p[0])
  {
    if k > 1 { WalkDescends(g, order, p, k - 1); }
    var u, v := p[k - 1], p[k];
    var i := IndexOf(order, u);
    assert v in order[..i];
    var j :| 0 <= j < i && order[j] == v;
    FirstIndex(order, v, j);
  }

  /** A graph with a topological order of all its phases has no cycle. */
  lemma TopologicalIsAcyclic(g: Graph, order: seq<Id>)
    requires IsTopological(g, order) && Elements(order) == g.Keys
    ensures !HasCycle(g)
  {
    if HasCycle(g) {
      var p :| IsCycle(g, p);
      assert p[0] in g;
      WalkDescends(g, order, p, |p| - 1);
    }
  }

  // ---------------------------------------------------------------- the depth-first search

  /** The closure of visit: its two sets, and for the proof the path to the phase being visited and the order of
      completion. */
  class Search {
    const graph: Graph
    var visiting: set<Id>
    var visited: set<Id>
    ghost var path: seq<Id>
    ghost var order: seq<Id>
    ghost var expanded: seq<Id>

    constructor (graph: Graph)
      requires IsClosed(graph)
      ensures this.graph == graph && visiting == {} && visited == {} && path == [] && order == [] && expanded == []
      ensures Valid()
    {
      this.graph := graph;
      visiting, visited := {}, {};
      path, order, expanded := [], [], [];
    }

    /** `path` is the stack of phases being visited, `order` those that are done, `expanded` all of them as they were
        begun. */
    ghost predicate Valid()
      reads this
    {
      && IsClosed(graph) && visiting + visited <= graph.Keys
      && Elements(path) == visiting && IsWalk(graph, path)
      && Elements(order) == visited && Distinct(order) && IsTopological(graph, order)
      && visiting !! visited
      && Elements(expanded) == visiting + visited && Distinct(expanded)
    }

    /** visit; false stands for the exception about a cycle. */
    method Visit(id: Id) returns (ok: bool)
      requires Valid() && id in graph && (path != [] ==> id in graph[path[|path| - 1]])
      modifies this
      ensures ok ==> Valid() && visiting == old(visiting) && path == old(path)
      ensures ok ==> visited >= old(visited) + {id}
      ensures !ok ==> HasCycle(graph)
      decreases graph.Keys - visiting - visited
    {
      if id in visiting {
        CycleThrough(graph, path, id);
        return false;
      }
      if id in visited { return true; }
      Enter(id);
      var i := 0;
      while i < |graph[id]|
        invariant i <= |graph[id]|
        invariant Valid() && visiting == old(visiting) + {id} && path == old(path) + [id]
        invariant visited >= old(visited) && forall k :: 0 <= k < i ==> graph[id][k] in visited
      {
        assert id in old(graph.Keys - visiting - visited) && id !in graph.Keys - visiting - visited;
        assert graph.Keys - visiting - visited <= old(graph.Keys - visiting - visited);
        ok := Visit(graph[id][i]);
        if !ok { return; }
        i := i + 1;
      }
      Leave(id);
      ok := true;
    }

    method Enter(id: Id)
      requires Valid() && id in graph && id !in visiting + visited && (path != [] ==> id in graph[path[|path| - 1]])
      modifies this
      ensures Valid() && visiting == old(visiting) + {id} && path == old(path) + [id] && visited == old(visited)
    {
      visiting, path, expanded := visiting + {id}, path + [id], expanded + [id];
    }

    method Leave(id: Id)
      requires Valid() && path != [] && path[|path| - 1] == id && id !in path[..|path| - 1]
      requires forall v :: v in graph[id] ==> v in visited
      modifies this
      ensures Valid() && visiting == old(visiting) - {id} && path == old(path)[..|old(path)| - 1] &&
        visited == old(visited) + {id}
    {
      TopologicalAppend(graph, order, id);
      visiting, visited := visiting - {id}, visited + {id};
      path, order := path[..|path| - 1], order + [id];
    }
  }

  lemma TopologicalAppend(g: Graph, order: seq<Id>, id: Id)
    requires IsTopological(g, order) && id in g && forall v :: v in g[id] ==> v in order
    ensures IsTopological(g, order + [id])
  {
    var longer := order + [id];
    forall i, v | 0 <= i < |longer| && longer[i] in g && v in g[longer[i]] ensures v in longer[..i] {
      if i < |order| { assert longer[..i] == order[..i]; } else { assert longer[..i] == order; }
    }
  }

  /** Meeting a phase that is on the path closes a cycle. */
  lemma CycleThrough(g: Graph, path: seq<Id>, id: Id)
    requires IsWalk(g, path) && id in path && path[|path| - 1] in g && id in g[path[|path| - 1]]
    ensures HasCycle(g)
  {
    var k :| 0 <= k < |path| && path[k] == id;
    var p := path[k..] + [id];
    forall i | 0 <= i < |p| - 1 ensures p[i] in g && p[i + 1] in g[p[i]] {
      assert p[i] == path[k + i];
      if i + 1 < |p| - 1 { assert p[i + 1] == path[k + i + 1]; }
    }
    assert IsCycle(g, p);
  }

  // ---------------------------------------------------------------- the checks

  function Ids(phases: seq<Phase>): (ids: seq<Id>)
    ensures |ids| == |phases| && forall i :: 0 <= i < |phases| ==> ids[i] == phases[i].phaseId
  {
    seq(|phases|, i requires 0 <= i < |phases| => phases[i].phaseId)
  }

  /** Ids that _require_unique accepts: none empty, none twice. */
  predicate UniqueIds(ids: seq<Id>) {
    "" !in ids && Distinct(ids)
  }

  /** The dictionary of the phases; an id that came twice would keep its last dependencies. */
  function GraphOf(phases: seq<Phase>): (g: Graph)
    ensures g.Keys == Elements(Ids(phases))
  {
    if phases == [] then map[]
    else
      var last := phases[|phases| - 1];
      assert Ids(phases) == Ids(phases[..|phases| - 1]) + [last.phaseId];
      GraphOf(phases[..|phases| - 1])[last.phaseId := last.dependsOn]
  }

  /** The dictionary keeps the dependencies that came last for an id. */
  lemma {:induction false} LastDependenciesStay(phases: seq<Phase>, i: nat)
    requires i < |phases| && forall k :: i < k < |phases| ==> phases[k].phaseId != phases[i].phaseId
    ensures phases[i].phaseId in GraphOf(phases) && GraphOf(phases)[phases[i].phaseId] == phases[i].dependsOn
  {
    hide Ids, Elements;
    var n := |phases| - 1;
    if i < n {
      var shorter := phases[..n];
      assert shorter[i] == phases[i] && forall k :: 0 <= k < n ==> shorter[k] == phases[k];
      LastDependenciesStay(shorter, i);
    }
  }

  lemma GraphHasPhase(phases: seq<Phase>, i: nat)
    requires i < |phases| && Distinct(Ids(phases))
    ensures phases[i].phaseId in GraphOf(phases) && GraphOf(phases)[phases[i].phaseId] == phases[i].dependsOn
  {
    var ids := Ids(phases);
    assert forall k :: i < k < |phases| ==> ids[k] != ids[i];
    hide GraphOf;
    LastDependenciesStay(phases, i);
  }

  /** _require_unique */
  method RequireUnique(ids: seq<Id>) returns (result: Result<set<Id>>)
    ensures result.Ok? <==> UniqueIds(ids)
    ensures result.Ok? ==> result.value == Elements(ids)
    ensures result.Raise? ==>
      || (result.error.EmptyId? && result.error.index < |ids| && ids[result.error.index] == "" &&
        UniqueIds(ids[..result.error.index]))
      || (result.error.DuplicateId? && result.error.index < |ids| &&
        ids[result.error.index] in ids[..result.error.index]
          && UniqueIds(ids[..result.error.index]))
  {
    var values: set<Id> := {};
    var index := 0;
    while index < |ids|
      invariant index <= |ids| && values == Elements(ids[..index]) && UniqueIds(ids[..index])
    {
      var value := ids[index];
      if value == "" { return Raise(EmptyId(index)); }
      if value in values {
        RepeatedIsNotDistinct(ids, index);
        return Raise(DuplicateId(index));
      }
      values := values + {value};
      assert ids[..index + 1] == ids[..index] + [value];
      index := index + 1;
    }
    assert ids[..index] == ids;
    result := Ok(values);
  }

  lemma RepeatedIsNotDistinct(ids: seq<Id>, index: nat)
    requires index < |ids| && ids[index] in ids[..index]
    ensures !Distinct(ids)
  {
    var k :| 0 <= k < index && ids[..index][k] == ids[index];
    assert ids[k] == ids[index];
  }

  /** _require_refs */
  method RequireRefs(refs: seq<Id>, known: set<Id>) returns (result: Result<()>)
    ensures result.Ok? <==> forall r :: r in refs ==> r in known
    ensures result.Raise? ==> result.error.UnknownReference? && result.error.ref in refs && result.error.ref !in known
  {
    for i := 0 to |refs|
      invariant forall k :: 0 <= k < i ==> refs[k] in known
    {
      if refs[i] !in known { return Raise(UnknownReference(refs[i])); }
    }
    result := Ok(());
  }

  predicate RefsKnown(phases: seq<Phase>) {
    forall i, v :: 0 <= i < |phases| && v in phases[i].dependsOn ==> v in Elements(Ids(phases))
  }

  predicate NoSelfDependency(phases: seq<Phase>) {
    forall i :: 0 <= i < |phases| ==> phases[i].phaseId !in phases[i].dependsOn
  }

  lemma KnownIsClosed(phases: seq<Phase>)
    requires Distinct(Ids(phases))
    ensures IsClosed(GraphOf(phases)) <==> RefsKnown(phases)
  {
    var g := GraphOf(phases);
    forall i | 0 <= i < |phases| ensures phases[i].phaseId in g && g[phases[i].phaseId] == phases[i].dependsOn {
      GraphHasPhase(phases, i);
    }
    if RefsKnown(phases) {
      forall u, v | u in g && v in g[u] ensures v in g {
        var i :| 0 <= i < |phases| && Ids(phases)[i] == u;
        assert v in phases[i].dependsOn;
      }
    }
  }

  lemma SelfLoop(g: Graph, id: Id)
    requires id in g && id in g[id]
    ensures HasCycle(g)
  {
    assert IsCycle(g, [id, id]);
  }

  /** The first loop of _assert_phase_dag. */
  method CheckReferences(phases: seq<Phase>, phaseIds: set<Id>) returns (result: Result<()>)
    requires Distinct(Ids(phases)) && phaseIds == Elements(Ids(phases))
    ensures result.Ok? <==> RefsKnown(phases) && NoSelfDependency(phases)
    ensures result.Raise? ==>
      || (result.error.UnknownReference? && result.error.ref !in phaseIds && !RefsKnown(phases))
      || (result.error.SelfDependency? && HasCycle(GraphOf(phases)))
  {
    for i := 0 to |phases|
      invariant forall k, v :: 0 <= k < i && v in phases[k].dependsOn ==> v in phaseIds
      invariant forall k :: 0 <= k < i ==> phases[k].phaseId !in phases[k].dependsOn
    {
      var id, dependencies := phases[i].phaseId, phases[i].dependsOn;
      var refs := RequireRefs(dependencies, phaseIds);
      if refs.Raise? { return refs; }
      if id in dependencies {
        GraphHasPhase(phases, i);
        SelfLoop(GraphOf(phases), id);
        return Raise(SelfDependency(id));
      }
    }
    result := Ok(());
  }

  /** The second loop: every phase is visited, each of them expanded once. */
  method VisitAll(phases: seq<Phase>) returns (result: Result<()>, ghost order: seq<Id>)
    requires Distinct(Ids(phases)) && RefsKnown(phases)
    ensures result.Ok? ==>
      IsTopological(GraphOf(phases), order) && Distinct(order) && Elements(order) == Elements(Ids(phases))
    ensures result.Raise? ==> result.error.Cycle? && HasCycle(GraphOf(phases))
  {
    hide GraphOf, IsTopological, IsWalk;
    order := [];
    KnownIsClosed(phases);
    var search := new Search(GraphOf(phases));
    for i := 0 to |phases|
      invariant search.Valid() && search.path == [] && fresh(search)
      invariant forall k :: 0 <= k < i ==> Ids(phases)[k] in search.visited
    {
      assert Ids(phases)[i] in search.graph;
      var ok := search.Visit(phases[i].phaseId);
      if !ok { return Raise(Cycle(phases[i].phaseId)), order; }
    }
    order := search.order;
    result := Ok(());
  }

  /** _assert_phase_dag, given unique ids: it returns exactly when all references are known and no phase depends on
      itself, directly or through others. `order` is the order in which phases enter `visited`. */
  method AssertPhaseDag(phases: seq<Phase>, phaseIds: set<Id>) returns (result: Result<()>, ghost order: seq<Id>)
    requires Distinct(Ids(phases)) && phaseIds == Elements(Ids(phases))
    ensures result.Ok? <==> RefsKnown(phases) && !HasCycle(GraphOf(phases))
    ensures result.Ok? ==>
      IsTopological(GraphOf(phases), order) && Distinct(order) && Elements(order) == phaseIds
    ensures result.Raise? ==>
      || (result.error.UnknownReference? && result.error.ref !in phaseIds)
      || (result.error.SelfDependency? && HasCycle(GraphOf(phases)))
      || (result.error.Cycle? && RefsKnown(phases) && HasCycle(GraphOf(phases)))
  {
    order := [];
    result := CheckReferences(phases, phaseIds);
    if result.Raise? { return; }
    result, order := VisitAll(phases);
    if result.Ok? { TopologicalIsAcyclic(GraphOf(phases), order); }
  }

  /** The phase part of validate_operation_semantics: accepted exactly when there are phases, their ids are unique,
      every reference is known and the dependencies have no cycle. */
  method CheckPhases(phases: seq<Phase>) returns (result: Result<()>)
    ensures result.Ok? <==> phases != [] && UniqueIds(Ids(phases)) && RefsKnown(phases) && !HasCycle(GraphOf(phases))
    ensures phases == [] ==> result == Raise(NoPhases)
  {
    if phases == [] { return Raise(NoPhases); }
    var ids := RequireUnique(Ids(phases));
    if ids.Raise? { return Raise(ids.error); }
    ghost var order;
    result, order := AssertPhaseDag(phases, ids.value);
  }

  /** Conversely, phases can be put into a topological order only if the check accepts them. */
  lemma OrderableIsAccepted(phases: seq<Phase>, order: seq<Id>)
    requires IsTopological(GraphOf(phases), order) && Elements(order) == Elements(Ids(phases)) && Distinct(Ids(phases))
    ensures RefsKnown(phases) && !HasCycle(GraphOf(phases))
  {
    TopologicalIsAcyclic(GraphOf(phases), order);
    forall u, v | u in GraphOf(phases) && v in GraphOf(phases)[u] ensures v in GraphOf(phases) {
      assert u in order;
      assert v in order[..IndexOf(order, u)];
    }
    KnownIsClosed(phases);
  }
}
