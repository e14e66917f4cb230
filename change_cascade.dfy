/**
 * What an outside subscriber sees when a bindable model raises
 * `PropertyChanged`: the internal handler, subscribed first, re-raises the
 * event for every dependent before the subscriber sees the original one,
 * so the cascade arrives in post-order.
 */
module ChangeCascade {
  import opened Wrappers
  import opened DependencyGraph

  /** The `sender` argument of an event: the model itself, another object, or null. */
  datatype Sender = Self | Other(id: nat) | NoSender

  /** One event as delivered to an outside subscriber; the name may be null. */
  datatype Event =
    | Changing(sender: Sender, name: Option<string>)
    | Changed(sender: Sender, name: Option<string>)

  /** The events that reach an outside subscriber when "changed" is raised for `p`. */
  function Cascade(g: Graph, sender: Sender, p: string): seq<Event>
    requires Acyclic(g)
    decreases Height(g, p), 1, 0
  {
    DependentsAreLower(g, p);
    CascadeAll(g, sender, Dependents(g, p), Height(g, p)) + [Changed(sender, Some(p))]
  }

  /** The cascades of `ds`, one after the other, in the order `ds` lists them. */
  function CascadeAll(g: Graph, sender: Sender, ds: seq<string>, ghost bound: nat): seq<Event>
    requires Acyclic(g)
    requires forall i :: 0 <= i < |ds| ==> Height(g, ds[i]) < bound
    decreases bound, 0, |ds|
  {
    if ds == [] then []
    else CascadeAll(g, sender, ds[..|ds| - 1], bound) + Cascade(g, sender, ds[|ds| - 1])
  }

  /** The events that raising "changed" for a possibly null name produces. */
  function Notify(g: Graph, sender: Sender, name: Option<string>): seq<Event>
    requires Acyclic(g)
  {
    match name
    case None => [Changed(sender, None)]
    case Some(p) => Cascade(g, sender, p)
  }

  /** How often `e` occurs in `log`. */
  function Occurrences(log: seq<Event>, e: Event): nat {
    multiset(log)[e]
  }

  /**
   * The number of dependency paths from `p` to `q` (the empty path counts
   * when `p == q`), with each dependent list read as a list of edges.
   */
  function PathCount(g: Graph, p: string, q: string): nat
    requires Acyclic(g)
    decreases Height(g, p), 1, 0
  {
    DependentsAreLower(g, p);
    (if p == q then 1 else 0) + PathCountAll(g, Dependents(g, p), q, Height(g, p))
  }

  /** The sum of the path counts from each of `ds` to `q`. */
  function PathCountAll(g: Graph, ds: seq<string>, q: string, ghost bound: nat): nat
    requires Acyclic(g)
    requires forall i :: 0 <= i < |ds| ==> Height(g, ds[i]) < bound
    decreases bound, 0, |ds|
  {
    if ds == [] then 0
    else PathCountAll(g, ds[..|ds| - 1], q, bound) + PathCount(g, ds[|ds| - 1], q)
  }

  /**
   * A property reachable from `p` by k dependency paths is notified exactly
   * k times: the cascade does not de-duplicate.
   */
  lemma {:induction false} CascadeCountsPaths(g: Graph, sender: Sender, p: string, q: string)
    requires Acyclic(g)
    ensures Occurrences(Cascade(g, sender, p), Changed(sender, Some(q))) == PathCount(g, p, q)
    decreases Height(g, p), 1, 0
  {
    DependentsAreLower(g, p);
    CascadeAllCountsPaths(g, sender, Dependents(g, p), q, Height(g, p));
  }

  /** CascadeCountsPaths for a list of dependents. */
  lemma {:induction false} CascadeAllCountsPaths(g: Graph, sender: Sender, ds: seq<string>, q: string, bound: nat)
    requires Acyclic(g)
    requires forall i :: 0 <= i < |ds| ==> Height(g, ds[i]) < bound
    ensures Occurrences(CascadeAll(g, sender, ds, bound), Changed(sender, Some(q))) == PathCountAll(g, ds, q, bound)
    decreases bound, 0, |ds|
  {
    if ds != [] {
      CascadeAllCountsPaths(g, sender, ds[..|ds| - 1], q, bound);
      CascadeCountsPaths(g, sender, ds[|ds| - 1], q);
    }
  }

  /**
   * The cascade holds only "changed" events, all with the sender of the
   * original event and a non-null name: dependents get no "changing".
   */
  lemma {:induction false} CascadeIsChangedOnly(g: Graph, sender: Sender, p: string)
    requires Acyclic(g)
    ensures forall e :: e in Cascade(g, sender, p) ==> e.Changed? && e.sender == sender && e.name.Some?
    decreases Height(g, p), 1, 0
  {
    DependentsAreLower(g, p);
    CascadeAllIsChangedOnly(g, sender, Dependents(g, p), Height(g, p));
  }

  /** CascadeIsChangedOnly for a list of dependents. */
  lemma {:induction false} CascadeAllIsChangedOnly(g: Graph, sender: Sender, ds: seq<string>, bound: nat)
    requires Acyclic(g)
    requires forall i :: 0 <= i < |ds| ==> Height(g, ds[i]) < bound
    ensures forall e :: e in CascadeAll(g, sender, ds, bound) ==> e.Changed? && e.sender == sender && e.name.Some?
    decreases bound, 0, |ds|
  {
    if ds != [] {
      CascadeAllIsChangedOnly(g, sender, ds[..|ds| - 1], bound);
      CascadeIsChangedOnly(g, sender, ds[|ds| - 1]);
    }
  }

  /** No dependency path leads from a property up to a higher one. */
  lemma {:induction false} NoPathUpwards(g: Graph, p: string, q: string)
    requires Acyclic(g) && Height(g, p) < Height(g, q)
    ensures PathCount(g, p, q) == 0
    decreases Height(g, p), 1, 0
  {
    DependentsAreLower(g, p);
    NoPathUpwardsAll(g, Dependents(g, p), q, Height(g, p));
  }

  /** NoPathUpwards for a list of dependents below `bound`. */
  lemma {:induction false} NoPathUpwardsAll(g: Graph, ds: seq<string>, q: string, bound: nat)
    requires Acyclic(g) && bound <= Height(g, q)
    requires forall i :: 0 <= i < |ds| ==> Height(g, ds[i]) < bound
    ensures PathCountAll(g, ds, q, bound) == 0
    decreases bound, 0, |ds|
  {
    if ds != [] {
      NoPathUpwardsAll(g, ds[..|ds| - 1], q, bound);
      NoPathUpwards(g, ds[|ds| - 1], q);
    }
  }

  /** Every occurrence of `e` in `log` lies before position `k`. */
  ghost predicate OnlyBefore(log: seq<Event>, e: Event, k: nat) {
    forall j :: 0 <= j < |log| && log[j] == e ==> j < k
  }

  /**
   * Post-order: the trigger's own event comes last and only once, and every
   * direct dependent is notified before it.
   */
  lemma CascadeIsPostOrder(g: Graph, sender: Sender, p: string)
    requires Acyclic(g)
    ensures var log := Cascade(g, sender, p);
      && log[|log| - 1] == Changed(sender, Some(p))
      && Occurrences(log, Changed(sender, Some(p))) == 1
      && forall d :: d in Dependents(g, p) ==> Changed(sender, Some(d)) in log[..|log| - 1]
  {
    var log := Cascade(g, sender, p);
    var ds := Dependents(g, p);
    DependentsAreLower(g, p);
    var front := CascadeAll(g, sender, ds, Height(g, p));
    assert log == front + [Changed(sender, Some(p))];
    assert log[..|log| - 1] == front;
    NoPathUpwardsAll(g, ds, p, Height(g, p));
    CascadeAllCountsPaths(g, sender, ds, p, Height(g, p));
    assert multiset(log) == multiset(front) + multiset{Changed(sender, Some(p))};
    forall d | d in ds ensures Changed(sender, Some(d)) in front {
      var i :| 0 <= i < |ds| && ds[i] == d;
      CascadeAllContains(g, sender, ds, Height(g, p), i);
    }
  }

  /** Following the cascades of `ds[..i]` by the cascade of `ds[i]` gives those of `ds[..i + 1]`. */
  lemma CascadeAllExtend(g: Graph, sender: Sender, ds: seq<string>, bound: nat, i: nat, prefix: seq<Event>)
    requires Acyclic(g)
    requires forall k :: 0 <= k < |ds| ==> Height(g, ds[k]) < bound
    requires i < |ds|
    ensures prefix + CascadeAll(g, sender, ds[..i], bound) + Cascade(g, sender, ds[i])
      == prefix + CascadeAll(g, sender, ds[..i + 1], bound)
  {
    assert ds[..i + 1][..i] == ds[..i];
  }

  /** The cascade of `ds` contains the final event of each of its members. */
  lemma {:induction false} CascadeAllContains(g: Graph, sender: Sender, ds: seq<string>, bound: nat, i: nat)
    requires Acyclic(g)
    requires forall k :: 0 <= k < |ds| ==> Height(g, ds[k]) < bound
    requires i < |ds|
    ensures Changed(sender, Some(ds[i])) in CascadeAll(g, sender, ds, bound)
    decreases |ds|
  {
    var last := ds[|ds| - 1];
    var init := ds[..|ds| - 1];
    assert CascadeAll(g, sender, ds, bound) == CascadeAll(g, sender, init, bound) + Cascade(g, sender, last);
    if i == |ds| - 1 {
      var c := Cascade(g, sender, last);
      assert c[|c| - 1] == Changed(sender, Some(last));
    } else {
      assert init[i] == ds[i];
      CascadeAllContains(g, sender, init, bound, i);
    }
  }

  /* ---- Termination ---- */

  /**
   * Raising "changed" for `p` returns within `depth` nested handler calls:
   * the recursion at BindableModel.cs:168 bottoms out.
   */
  predicate Finishes(g: Graph, p: string, depth: nat)
    decreases depth
  {
    depth > 0 && forall i :: 0 <= i < |Dependents(g, p)| ==> Finishes(g, Dependents(g, p)[i], depth - 1)
  }

  /** On an acyclic graph the cascade from `p` ends within `Height(p) + 1` nested calls. */
  lemma {:induction false} AcyclicCascadeFinishes(g: Graph, p: string)
    requires Acyclic(g)
    ensures Finishes(g, p, Height(g, p) + 1)
    decreases Height(g, p)
  {
    DependentsAreLower(g, p);
    forall i | 0 <= i < |Dependents(g, p)| ensures Finishes(g, Dependents(g, p)[i], Height(g, p)) {
      var d := Dependents(g, p)[i];
      AcyclicCascadeFinishes(g, d);
      FinishesMonotone(g, d, Height(g, d) + 1, Height(g, p));
    }
  }

  /** More nesting depth never hurts. */
  lemma {:induction false} FinishesMonotone(g: Graph, p: string, m: nat, n: nat)
    requires Finishes(g, p, m) && m <= n
    ensures Finishes(g, p, n)
    decreases m
  {
    forall i | 0 <= i < |Dependents(g, p)| ensures Finishes(g, Dependents(g, p)[i], n - 1) {
      FinishesMonotone(g, Dependents(g, p)[i], m - 1, n - 1);
    }
  }

  /** Every property of `s` has a dependent in `s`: a cycle, or a set the cycles feed. */
  ghost predicate SelfFeeding(g: Graph, s: set<string>) {
    forall x :: x in s ==> exists i :: 0 <= i < |Dependents(g, x)| && Dependents(g, x)[i] in s
  }

  /**
   * From a property on a cycle of any length the cascade never ends, for
   * no nesting depth is enough.
   */
  lemma {:induction false} CycleNeverFinishes(g: Graph, s: set<string>, p: string, depth: nat)
    requires SelfFeeding(g, s) && p in s
    ensures !Finishes(g, p, depth)
    decreases depth
  {
    if depth > 0 {
      var i :| 0 <= i < |Dependents(g, p)| && Dependents(g, p)[i] in s;
      CycleNeverFinishes(g, s, Dependents(g, p)[i], depth - 1);
    }
  }

  /** The three-property cycle the loop check accepts makes the cascade from `A` run forever. */
  lemma ThreeCycleNeverFinishes(depth: nat)
    ensures !Finishes(ThreeCycle(), "A", depth)
  {
    ThreeCycleAccepted();
    var g := ThreeCycle();
    assert "C" in Dependents(g, "A") && "B" in Dependents(g, "C") && "A" in Dependents(g, "B");
    TriangleNeverFinishes(g, "A", "C", "B", depth);
  }

  /** Any cycle of three properties `a`, `b`, `c` never finishes from `a`. */
  lemma TriangleNeverFinishes(g: Graph, a: string, b: string, c: string, depth: nat)
    requires b in Dependents(g, a) && c in Dependents(g, b) && a in Dependents(g, c)
    ensures !Finishes(g, a, depth)
  {
    var s := {a, b, c};
    forall x | x in s
      ensures exists i :: 0 <= i < |Dependents(g, x)| && Dependents(g, x)[i] in s
    {
      var y := if x == a then b else if x == b then c else a;
      var i :| 0 <= i < |Dependents(g, x)| && Dependents(g, x)[i] == y;
    }
    CycleNeverFinishes(g, s, a, depth);
  }

  /** So does a self-dependency. */
  lemma SelfDependencyNeverFinishes(g: Graph, a: string, depth: nat)
    requires a in Dependents(g, a)
    ensures !Finishes(g, a, depth)
  {
    var i :| 0 <= i < |Dependents(g, a)| && Dependents(g, a)[i] == a;
    CycleNeverFinishes(g, {a}, a, depth);
  }

  /**
   * The example of a total depending on a price and a quantity: changing the
   * price notifies the total, and then the price.
   */
  lemma PriceTotalExample()
    ensures AddTriggers(map[], "Total", ["Price", "Qty"]).outcome == Pass
    ensures var g := AddTriggers(map[], "Total", ["Price", "Qty"]).graph;
      && Acyclic(g)
      && Cascade(g, Self, "Price") == [Changed(Self, Some("Total")), Changed(Self, Some("Price"))]
  {
    PriceTotalGraph();
    var g := map["Price" := ["Total"], "Qty" := ["Total"]];
    assert Ranked(g, map["Price" := 1, "Qty" := 1, "Total" := 0]);
    assert Dependents(g, "Price") == ["Total"] && Dependents(g, "Total") == [];
    SingleDependentCascade(g, Self, "Price", "Total");
  }

  /** A property with no dependents is notified alone. */
  lemma LeafCascade(g: Graph, sender: Sender, d: string)
    requires Acyclic(g) && Dependents(g, d) == []
    ensures Cascade(g, sender, d) == [Changed(sender, Some(d))]
  {
    assert CascadeAll(g, sender, [], Height(g, d)) == [];
  }

  /** A property whose one dependent has none itself notifies that dependent, then itself. */
  lemma SingleDependentCascade(g: Graph, sender: Sender, p: string, d: string)
    requires Acyclic(g) && Dependents(g, p) == [d] && Dependents(g, d) == []
    ensures Cascade(g, sender, p) == [Changed(sender, Some(d)), Changed(sender, Some(p))]
  {
    DependentsAreLower(g, p);
    var h := Height(g, p);
    LeafCascade(g, sender, d);
    assert [d][..0] == [];
    assert CascadeAll(g, sender, [d], h) == CascadeAll(g, sender, [], h) + Cascade(g, sender, d);
  }
}
