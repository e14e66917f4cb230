/**
 * The dependency graph of a bindable model (`_depends` in BindableModel.cs)
 * as a value, the registration rule of `AddDependency` with its loop check,
 * and acyclicity.
 */
module DependencyGraph {
  import opened Wrappers
  import opened DictionaryExtensions

  /**
   * Trigger property name -> its dependent property names, in the order the
   * trigger's `HashSet` enumerates them.
   */
  type Graph = map<string, seq<string>>

  /** The error `AddDependency` throws; it names both properties. */
  datatype LoopTriggerException = LoopTriggerException(trigger: string, dependent: string)

  /** The graph after a registration, and whether the registration threw. */
  datatype Registration = Registration(graph: Graph, outcome: Outcome<LoopTriggerException>)

  /** The dependents notified when `p` changes (none when `p` is not a key). */
  function Dependents(g: Graph, p: string): seq<string> {
    if p in g then g[p] else []
  }

  /** `_depends.SetOrAdd(trigger, dependent)`: a set insertion under `trigger`. */
  function Insert(g: Graph, trigger: string, dependent: string): (r: Graph)
    ensures r.Keys == g.Keys + {trigger}
    ensures Dependents(r, trigger) == Inserted(Dependents(g, trigger), dependent)
    ensures forall p :: p != trigger ==> Dependents(r, p) == Dependents(g, p)
  {
    AddedTo(g, trigger, dependent)
  }

  /** Inserting an edge the graph already has leaves it as it is. */
  lemma InsertPresent(g: Graph, trigger: string, dependent: string)
    requires dependent in Dependents(g, trigger)
    ensures Insert(g, trigger, dependent) == g
  {
    assert trigger in g;
  }

  /** Every edge of `g` is an edge of `h`. */
  ghost predicate Includes(h: Graph, g: Graph) {
    forall p, x :: x in Dependents(g, p) ==> x in Dependents(h, p)
  }

  /**
   * `AddDependency(dependent, triggers)`: the triggers are taken in order;
   * a trigger that already depends on `dependent` throws, and the
   * insertions made for the triggers before it stay in place.
   */
  function AddTriggers(g: Graph, dependent: string, triggers: seq<string>): Registration
    decreases |triggers|
  {
    if triggers == [] then Registration(g, Pass)
    else if triggers[0] in Dependents(g, dependent) then
      Registration(g, Fail(LoopTriggerException(triggers[0], dependent)))
    else AddTriggers(Insert(g, triggers[0], dependent), dependent, triggers[1..])
  }

  /** Registration never removes an edge, whether or not it throws. */
  lemma {:induction false} AddTriggersKeepsEdges(g: Graph, dependent: string, triggers: seq<string>)
    ensures Includes(AddTriggers(g, dependent, triggers).graph, g)
    decreases |triggers|
  {
    if triggers != [] && triggers[0] !in Dependents(g, dependent) {
      var g' := Insert(g, triggers[0], dependent);
      AddTriggersKeepsEdges(g', dependent, triggers[1..]);
    }
  }

  /** The prefix of length `j + 1` starts with `s[0]`, followed by the prefix of length `j` of the tail. */
  lemma PrefixTail<T>(s: seq<T>, j: nat)
    requires j < |s|
    ensures s[..j + 1][0] == s[0] && s[..j + 1][1..] == s[1..][..j]
  {
    assert s[..j + 1][1..] == s[1..j + 1];
  }

  /** A registration that does not throw makes `dependent` a dependent of every trigger. */
  lemma {:induction false} AddTriggersRegistersAll(g: Graph, dependent: string, triggers: seq<string>)
    requires AddTriggers(g, dependent, triggers).outcome == Pass
    ensures forall t :: t in triggers ==> dependent in Dependents(AddTriggers(g, dependent, triggers).graph, t)
    decreases |triggers|
  {
    if triggers != [] {
      var g' := Insert(g, triggers[0], dependent);
      AddTriggersRegistersAll(g', dependent, triggers[1..]);
      AddTriggersKeepsEdges(g', dependent, triggers[1..]);
      assert forall t :: t in triggers ==> t == triggers[0] || t in triggers[1..];
    }
  }

  /**
   * A registration that throws stops at the first trigger `triggers[i]`
   * that already depends on `dependent`: the error names it, and the graph
   * is the one the registration of `triggers[..i]` alone produces.
   */
  lemma {:induction false} AddTriggersFailure(g: Graph, dependent: string, triggers: seq<string>) returns (i: nat)
    requires AddTriggers(g, dependent, triggers).outcome.Fail?
    ensures i < |triggers|
    ensures AddTriggers(g, dependent, triggers).outcome.error == LoopTriggerException(triggers[i], dependent)
    ensures AddTriggers(g, dependent, triggers[..i]) == Registration(AddTriggers(g, dependent, triggers).graph, Pass)
    ensures triggers[i] in Dependents(AddTriggers(g, dependent, triggers).graph, dependent)
    decreases |triggers|
  {
    if triggers[0] in Dependents(g, dependent) {
      i := 0;
      assert triggers[..0] == [];
    } else {
      var g' := Insert(g, triggers[0], dependent);
      var j := AddTriggersFailure(g', dependent, triggers[1..]);
      i := j + 1;
      PrefixTail(triggers, j);
      assert AddTriggers(g, dependent, triggers[..i]) == AddTriggers(g', dependent, triggers[1..][..j]);
    }
  }

  /** Triggers in the registered list are the only keys whose dependents change. */
  lemma {:induction false} AddTriggersKeepsOthers(g: Graph, dependent: string, triggers: seq<string>, p: string)
    requires p !in triggers
    ensures Dependents(AddTriggers(g, dependent, triggers).graph, p) == Dependents(g, p)
    decreases |triggers|
  {
    if triggers != [] && triggers[0] !in Dependents(g, dependent) {
      AddTriggersKeepsOthers(Insert(g, triggers[0], dependent), dependent, triggers[1..], p);
    }
  }

  /**
   * Only a direct two-property loop is rejected: once `a` depends on `b`,
   * making `b` depend on `a` throws `LoopTriggerException(a, b)`.
   */
  lemma TwoPropertyLoopRejected(g: Graph, a: string, b: string)
    requires b !in Dependents(g, a) && a != b
    ensures AddTriggers(g, a, [b]).outcome == Pass
    ensures AddTriggers(AddTriggers(g, a, [b]).graph, b, [a]).outcome == Fail(LoopTriggerException(a, b))
  {
    assert [b][1..] == [];
    assert a in Dependents(Insert(g, b, a), b);
  }

  /**
   * The repository's loop test: `MyPropertyOne` depending on `MyPropertyTwo`
   * and then `MyPropertyTwo` depending on `MyPropertyOne` throws.
   */
  lemma LoopTestThrows()
    ensures
      var first := AddTriggers(map[], "MyPropertyOne", ["MyPropertyTwo"]);
      && first.outcome == Pass
      && AddTriggers(first.graph, "MyPropertyTwo", ["MyPropertyOne"]).outcome
         == Fail(LoopTriggerException("MyPropertyOne", "MyPropertyTwo"))
  {
    TwoPropertyLoopRejected(map[], "MyPropertyOne", "MyPropertyTwo");
  }

  /**
   * Registering again what was registered already changes nothing and does
   * not throw, provided the property does not depend on itself.
   */
  lemma {:induction false} RepeatedRegistrationIsNoOp(g: Graph, dependent: string, triggers: seq<string>)
    requires dependent !in triggers
    requires AddTriggers(g, dependent, triggers).outcome == Pass
    ensures
      var h := AddTriggers(g, dependent, triggers).graph;
      AddTriggers(h, dependent, triggers) == Registration(h, Pass)
  {
    var h := AddTriggers(g, dependent, triggers).graph;
    AddTriggersKeepsOthers(g, dependent, triggers, dependent);
    AddTriggersRegistersAll(g, dependent, triggers);
    RepeatedStep(g, h, dependent, triggers);
  }

  /** The induction behind RepeatedRegistrationIsNoOp: `h` already holds every edge added. */
  lemma {:induction false} RepeatedStep(g: Graph, h: Graph, dependent: string, triggers: seq<string>)
    requires dependent !in triggers
    requires AddTriggers(g, dependent, triggers).outcome == Pass
    requires forall t :: t in triggers ==> dependent in Dependents(h, t)
    requires Dependents(h, dependent) == Dependents(g, dependent)
    ensures AddTriggers(h, dependent, triggers) == Registration(h, Pass)
    decreases |triggers|
  {
    if triggers != [] {
      var t := triggers[0];
      var g' := Insert(g, t, dependent);
      assert t !in Dependents(h, dependent);
      assert dependent in Dependents(h, t);
      InsertPresent(h, t, dependent);
      assert Dependents(g', dependent) == Dependents(g, dependent);
      assert forall x :: x in triggers[1..] ==> x in triggers;
      RepeatedStep(g', h, dependent, triggers[1..]);
    }
  }

  /** Registering a total as dependent on a price and a quantity. */
  lemma PriceTotalGraph()
    ensures AddTriggers(map[], "Total", ["Price", "Qty"])
      == Registration(map["Price" := ["Total"], "Qty" := ["Total"]], Pass)
  {
    var g1 := Insert(map[], "Price", "Total");
    assert g1 == map["Price" := ["Total"]];
    var g2 := Insert(g1, "Qty", "Total");
    assert g2 == map["Price" := ["Total"], "Qty" := ["Total"]];
    assert ["Price", "Qty"][1..] == ["Qty"] && ["Qty"][1..] == [];
  }

  /* ---- Acyclicity ---- */

  /** `rank` numbers the properties so that every dependent ranks below its trigger. */
  ghost predicate Ranked(g: Graph, rank: map<string, nat>) {
    forall p, i :: p in g && 0 <= i < |g[p]| ==> p in rank && g[p][i] in rank && rank[g[p][i]] < rank[p]
  }

  /** The graph has no cycle: its properties can be ranked. */
  ghost predicate Acyclic(g: Graph) {
    exists rank :: Ranked(g, rank)
  }

  /** One fixed ranking of an acyclic graph. */
  ghost function Rank(g: Graph): (rank: map<string, nat>)
    requires Acyclic(g)
    ensures Ranked(g, rank)
  {
    var rank :| Ranked(g, rank); rank
  }

  /** The rank of a property, 0 for one outside the graph: bounds the cascade's depth. */
  ghost function Height(g: Graph, p: string): nat
    requires Acyclic(g)
  {
    if p in Rank(g) then Rank(g)[p] else 0
  }

  /** Every dependent has a smaller height than its trigger. */
  lemma DependentsAreLower(g: Graph, p: string)
    requires Acyclic(g)
    ensures forall i :: 0 <= i < |Dependents(g, p)| ==> Height(g, Dependents(g, p)[i]) < Height(g, p)
  {
  }

  /** A property that depends on itself makes the graph cyclic. */
  lemma SelfLoopIsCyclic(g: Graph, a: string)
    requires a in Dependents(g, a)
    ensures !Acyclic(g)
  {
    var i :| 0 <= i < |g[a]| && g[a][i] == a;
    forall rank: map<string, nat> ensures !Ranked(g, rank) {
      assert !(a in rank && g[a][i] in rank && rank[g[a][i]] < rank[a]);
    }
  }

  /**
   * The loop check lets a first self-dependency through (a second one
   * throws), and the graph it leaves is cyclic.
   */
  lemma SelfDependencyAccepted(g: Graph, a: string)
    requires a !in Dependents(g, a)
    ensures AddTriggers(g, a, [a]) == Registration(Insert(g, a, a), Pass)
    ensures !Acyclic(Insert(g, a, a))
    ensures AddTriggers(Insert(g, a, a), a, [a]).outcome == Fail(LoopTriggerException(a, a))
  {
    assert [a][1..] == [];
    SelfLoopIsCyclic(Insert(g, a, a), a);
  }

  /** The graph of `A` depending on `B`, `B` on `C` and `C` on `A`. */
  function ThreeCycle(): Graph {
    var g1 := AddTriggers(map[], "A", ["B"]).graph;
    var g2 := AddTriggers(g1, "B", ["C"]).graph;
    AddTriggers(g2, "C", ["A"]).graph
  }

  /** A cycle of three properties is registered without complaint. */
  lemma ThreeCycleAccepted()
    ensures AddTriggers(map[], "A", ["B"]).outcome == Pass
    ensures AddTriggers(AddTriggers(map[], "A", ["B"]).graph, "B", ["C"]).outcome == Pass
    ensures AddTriggers(AddTriggers(AddTriggers(map[], "A", ["B"]).graph, "B", ["C"]).graph, "C", ["A"]).outcome == Pass
    ensures ThreeCycle() == map["B" := ["A"], "C" := ["B"], "A" := ["C"]]
  {
    assert ["B"][1..] == [] && ["C"][1..] == [] && ["A"][1..] == [];
    var g1 := Insert(map[], "B", "A");
    assert g1 == map["B" := ["A"]];
    var g2 := Insert(g1, "C", "B");
    assert g2 == map["B" := ["A"], "C" := ["B"]];
    var g3 := Insert(g2, "A", "C");
    assert g3 == map["B" := ["A"], "C" := ["B"], "A" := ["C"]];
  }

  /** The graph it leaves is a cycle. */
  lemma ThreeCycleIsCyclic()
    ensures !Acyclic(ThreeCycle())
  {
    ThreeCycleAccepted();
    var g := ThreeCycle();
    assert g["B"][0] == "A" && g["C"][0] == "B" && g["A"][0] == "C";
    forall rank: map<string, nat> ensures !Ranked(g, rank) {
      if "A" in rank && "B" in rank && "C" in rank {
        assert !(rank["A"] < rank["B"] && rank["B"] < rank["C"] && rank["C"] < rank["A"]);
      }
    }
  }
}
