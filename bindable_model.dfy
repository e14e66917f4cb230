/**
 * `BindableModel`: a property store (`_context`), a dependency graph
 * (`_depends`, a dictionary of hash sets) and the change notifications they
 * drive. `log` is what an outside subscriber, attached after construction to
 * both `PropertyChanging` and `PropertyChanged`, receives.
 */
module Bindable {
  import opened Wrappers
  import opened DictionaryExtensions
  import opened DependencyGraph
  import opened ChangeCascade

  /** The declared type of a property, as far as its default value depends on it. */
  datatype PropertyType = IntType | BoolType | TextType | ObjectType | ListType

  /**
   * A stored property value. Values compare as `Equals` does in the
   * source: numbers, booleans and strings by content, other objects and
   * binding lists by reference.
   */
  datatype Value =
    | Null
    | Int(i: int)
    | Bool(b: bool)
    | Text(s: string)
    | Object(id: nat)
    | ListRef(list: BindingList)

  /** The exceptions the model's operations throw. */
  datatype Error =
    | ArgumentNull(paramName: string)  // ArgumentNullException
    | RuntimeBinder                    // a dynamic call on null or on a value without that method

  /**
   * `GetPropertyType(name)?.GetDefaultValue()`: the zero of a value type,
   * null for a reference type or an undeclared property.
   */
  function DefaultValue(declared: Option<PropertyType>): (v: Value)
    ensures declared == Some(IntType) ==> v == Int(0)
    ensures declared == Some(BoolType) ==> v == Bool(false)
    ensures declared.None? || declared.value in {TextType, ObjectType, ListType} ==> v == Null
  {
    match declared
    case Some(IntType) => Int(0)
    case Some(BoolType) => Bool(false)
    case _ => Null
  }

  /** `prev?.Equals(value) ?? value == null`, with `prev` the stored value. */
  function DynamicEquals(prev: Value, value: Value): bool {
    match prev
    case Null => value == Null
    case _ => prev == value
  }

  /** The comparison is plain equality of values; null equals only null. */
  lemma DynamicEqualsIsEquality(prev: Value, value: Value)
    ensures DynamicEquals(prev, value) <==> prev == value
    ensures prev == Null ==> (DynamicEquals(prev, value) <==> value == Null)
  {
  }

  /** Whether the scalar `SetProperty(value, name)` stores `value` and raises "changed". */
  predicate ScalarChanges(context: map<string, Value>, name: string, value: Value) {
    name !in context || !DynamicEquals(context[name], value)
  }

  /**
   * The rules of the scalar comparison: a first set always changes, even to
   * the default; null to null does not; null to non-null and back does;
   * otherwise a change is a different value.
   */
  lemma ScalarChangeRules(context: map<string, Value>, name: string, value: Value)
    ensures name !in context ==> ScalarChanges(context, name, value)
    ensures name in context && context[name] == Null ==> (ScalarChanges(context, name, value) <==> value != Null)
    ensures name in context && context[name] != Null && value == Null ==> ScalarChanges(context, name, value)
    ensures name in context ==> (ScalarChanges(context, name, value) <==> context[name] != value)
  {
  }

  /** Setting the value just stored again changes nothing. */
  lemma RepeatedSetIsSilent(context: map<string, Value>, name: string, value: Value)
    ensures !ScalarChanges(context[name := value], name, value)
  {
  }

  /** What the list `SetProperty` does, decided from the stored value before it acts. */
  datatype ListStep =
    | Create                    // first set: store a new binding list over the items
    | Refill(list: BindingList) // clear the stored list and add the new items
    | Unchanged                 // stored null, new value null
    | Raise(error: Error)       // the step that throws

  /** The list `SetProperty` for `name`, lines 117-137 of BindableModel.cs. */
  function PlanListSet(context: map<string, Value>, name: string, items: Option<seq<Value>>): (step: ListStep)
    ensures name !in context ==> (step == Create <==> items.Some?)
    ensures name in context && context[name].ListRef? ==> step == Refill(context[name].list)
    ensures step.Unchanged? <==> name in context && context[name] == Null && items.None?
    ensures name !in context && items.None? ==> step == Raise(ArgumentNull("list"))
    ensures name in context && context[name] == Null && items.Some? ==> step == Raise(RuntimeBinder)
    ensures name in context && context[name] != Null && !context[name].ListRef? ==> step == Raise(RuntimeBinder)
  {
    if name !in context then
      if items.None? then Raise(ArgumentNull("list")) else Create  // new BindingList<T>(null) throws
    else match context[name]
      case Null => if items.None? then Unchanged else Raise(RuntimeBinder)  // Clear() on null
      case ListRef(l) => Refill(l)  // the caller's list is taken to be another object than the stored one
      case _ => Raise(RuntimeBinder)  // Clear() on a value that is not a list
  }

  /** The steps that end in `OnPropertyChanged(this, memberName)`. */
  predicate RaisesChanged(step: ListStep) {
    step.Create? || step.Refill?
  }

  /** `prevValue.Clear()` and then `prevValue.Add(item)` for each item of a non-null list. */
  method ReplaceItems(list: BindingList, items: Option<seq<Value>>)
    modifies list
    ensures list.items == if items.Some? then items.value else []
  {
    list.Clear();
    if items.Some? {
      var source := items.value;
      var i := 0;
      while i < |source|
        invariant 0 <= i <= |source|
        invariant list.items == source[..i]
      {
        list.Add(source[i]);
        assert source[..i + 1] == source[..i] + [source[i]];
        i := i + 1;
      }
      assert source[..|source|] == source;
    }
  }

  /** `BindingList<T>`: a list whose object identity subscribers hold on to. */
  class BindingList {
    var items: seq<Value>

    /** Models `new BindingList<T>(value)` as a copy of the caller's items. */
    constructor (items: seq<Value>)
      ensures this.items == items
    {
      this.items := items;
    }

    method Clear()
      modifies this
      ensures items == []
    {
      items := [];
    }

    method Add(item: Value)
      modifies this
      ensures items == old(items) + [item]
    {
      items := items + [item];
    }
  }

  class BindableModel {
    /** The declared type of each property, standing for the reflective type lookup. */
    const schema: map<string, PropertyType>
    /** `_context`: the property store. */
    var context: map<string, Value>
    /** `_depends`: trigger name -> hash set of dependent names. */
    const depends: Dictionary<string, HashSet<string>>
    /** The events an outside subscriber has received. */
    var log: seq<Event>

    /** Each trigger owns its own hash set. */
    ghost predicate Valid()
      reads depends, depends.entries.Values
    {
      && Unaliased(depends)
      && (forall p :: p in depends.entries ==> depends.entries[p].Valid())
    }

    /** The dependency graph as a value. */
    ghost function Graph(): Graph
      reads depends, depends.entries.Values
    {
      Contents(depends)
    }

    /** The internal handler is subscribed here, so it always runs before any outside subscriber. */
    constructor (schema: map<string, PropertyType>)
      ensures Valid() && fresh(depends)
      ensures this.schema == schema && context == map[] && Graph() == map[] && log == []
    {
      this.schema := schema;
      context := map[];
      depends := new Dictionary<string, HashSet<string>>();
      log := [];
    }

    /** `GetProperty`: the stored value, or the declared type's default for a name never set. */
    function GetProperty(memberName: Option<string>): (r: Result<Value, Error>)
      reads this
      ensures memberName.None? ==> r == Failure(ArgumentNull("memberName"))
      ensures memberName.Some? && memberName.value in context ==> r == Success(context[memberName.value])
      ensures memberName.Some? && memberName.value !in context ==>
        r == Success(DefaultValue(if memberName.value in schema then Some(schema[memberName.value]) else None))
    {
      match memberName
      case None => Failure(ArgumentNull("memberName"))
      case Some(name) =>
        if name in context then Success(context[name])
        else Success(DefaultValue(if name in schema then Some(schema[name]) else None))
    }

    /** `OnPropertyChanging(name)`: raise "changing" with the model as sender. */
    method OnPropertyChanging(propertyName: Option<string>)
      modifies this`log
      ensures log == old(log) + [Changing(Self, propertyName)]
    {
      log := log + [Changing(Self, propertyName)];
    }

    /** `OnPropertyChanged(name)`: raise "changed" with the model as sender. */
    method OnPropertyChanged(propertyName: Option<string>)
      requires Acyclic(Graph())
      modifies this`log
      ensures log == old(log) + Notify(Graph(), Self, propertyName)
    {
      FirePropertyChanged(Self, propertyName);
    }

    /**
     * `OnPropertyChanged(sender, name)`: invoke the subscribers of
     * `PropertyChanged` in subscription order, the internal handler first.
     */
    method FirePropertyChanged(sender: Sender, propertyName: Option<string>)
      requires Acyclic(Graph())
      modifies this`log
      ensures log == old(log) + Notify(Graph(), sender, propertyName)
      decreases if propertyName.Some? then Height(Graph(), propertyName.value) else 0, 2
    {
      HandlePropertyChanged(sender, propertyName);
      log := log + [Changed(sender, propertyName)];
    }

    /**
     * `BindableModel_PropertyChanged`: raise "changed" with the same sender
     * for every dependent of the property, over a snapshot of its hash set.
     */
    method HandlePropertyChanged(sender: Sender, propertyName: Option<string>)
      requires Acyclic(Graph())
      modifies this`log
      ensures propertyName.None? ==> log == old(log)
      ensures propertyName.Some? ==>
        log + [Changed(sender, propertyName)] == old(log) + Cascade(Graph(), sender, propertyName.value)
      decreases if propertyName.Some? then Height(Graph(), propertyName.value) else 0, 1
    {
      if propertyName.Some? {
        var property := propertyName.value;
        if property in depends.entries {
          RaiseDependents(sender, property, depends.entries[property].items);
        } else {
          assert Cascade(Graph(), sender, property) == [Changed(sender, propertyName)];
        }
      }
    }

    /** `value.ForEach(x => OnPropertyChanged(sender, x))` over the dependents of `property`. */
    method RaiseDependents(sender: Sender, property: string, dependents: seq<string>)
      requires Acyclic(Graph()) && dependents == Dependents(Graph(), property)
      modifies this`log
      ensures log + [Changed(sender, Some(property))] == old(log) + Cascade(Graph(), sender, property)
      decreases Height(Graph(), property), 0
    {
      ghost var g := Graph();
      ghost var h := Height(g, property);
      DependentsAreLower(g, property);
      var i := 0;
      while i < |dependents|
        invariant 0 <= i <= |dependents|
        invariant g == Graph()
        invariant log == old(log) + CascadeAll(g, sender, dependents[..i], h)
      {
        FirePropertyChanged(sender, Some(dependents[i]));
        CascadeAllExtend(g, sender, dependents, h, i, old(log));
        i := i + 1;
      }
      assert dependents[..|dependents|] == dependents;
    }

    /**
     * The scalar `SetProperty`: "changing" twice, then store and raise
     * "changed" (with its cascade) only when the value differs.
     */
    method SetProperty(value: Value, memberName: Option<string>) returns (r: Outcome<Error>)
      requires memberName.Some? && ScalarChanges(context, memberName.value, value) ==> Acyclic(Graph())
      modifies this`context, this`log
      ensures memberName.None? ==>
        r == Fail(ArgumentNull("memberName")) && context == old(context) && log == old(log)
      ensures memberName.Some? ==>
        var name := memberName.value;
        var changes := ScalarChanges(old(context), name, value);
        && r == Pass
        && context == (if changes then old(context)[name := value] else old(context))
        && log == old(log) + [Changing(Self, memberName)] + [Changing(Self, memberName)]
                 + (if changes then Cascade(Graph(), Self, name) else [])
      ensures memberName.Some? ==> GetProperty(memberName) == Success(value)
    {
      if memberName.None? {
        return Fail(ArgumentNull("memberName"));
      }
      var name := memberName.value;
      OnPropertyChanging(memberName);
      log := log + [Changing(Self, memberName)];  // PropertyChanging?.Invoke
      // an absent name is added, a present one overwritten when the value differs
      if name !in context || !DynamicEquals(context[name], value) {
        context := context[name := value];
        FirePropertyChanged(Self, memberName);
      }
      r := Pass;
    }

    /** The binding list the list `SetProperty` for `memberName` may clear and refill. */
    ghost function StoredList(memberName: Option<string>): set<BindingList>
      reads this
    {
      if memberName.Some? && memberName.value in context && context[memberName.value].ListRef?
      then {context[memberName.value].list} else {}
    }

    /**
     * The list `SetProperty`: "changing" once; a first set stores a new
     * binding list over the items, a later one keeps the stored list object,
     * clears it and adds the new items in order (none for a null list).
     */
    method SetListProperty(items: Option<seq<Value>>, memberName: Option<string>) returns (r: Outcome<Error>)
      requires memberName.Some? && RaisesChanged(PlanListSet(context, memberName.value, items)) ==> Acyclic(Graph())
      modifies this`context, this`log, StoredList(memberName)
      ensures memberName.None? ==>
        r == Fail(ArgumentNull("memberName")) && context == old(context) && log == old(log)
      ensures memberName.Some? ==>
        var name := memberName.value;
        match PlanListSet(old(context), name, items)
        case Create =>
          && r == Pass && name in context && context[name].ListRef?
          && fresh(context[name].list) && context[name].list.items == items.value
          && context == old(context)[name := context[name]]
          && log == old(log) + [Changing(Self, memberName)] + Cascade(Graph(), Self, name)
        case Refill(list) =>
          && r == Pass && context == old(context)
          && list.items == (if items.Some? then items.value else [])
          && log == old(log) + [Changing(Self, memberName)] + Cascade(Graph(), Self, name)
        case Unchanged =>
          r == Pass && context == old(context) && log == old(log) + [Changing(Self, memberName)]
        case Raise(e) =>
          r == Fail(e) && context == old(context) && log == old(log) + [Changing(Self, memberName)]
    {
      if memberName.None? {
        return Fail(ArgumentNull("memberName"));
      }
      var name := memberName.value;
      OnPropertyChanging(memberName);
      if name in context {
        var prevValue := context[name];
        if !(items.None? && prevValue == Null) {
          match prevValue {
            case ListRef(list) =>
              ReplaceItems(list, items);
              FirePropertyChanged(Self, memberName);
            case _ =>
              return Fail(RuntimeBinder);
          }
        }
      } else {
        if items.None? {
          return Fail(ArgumentNull("list"));
        }
        var list := new BindingList(items.value);
        context := context[name := ListRef(list)];
        FirePropertyChanged(Self, memberName);
      }
      r := Pass;
    }

    /**
     * `AddDependency(dependent, triggers)`: for each trigger in turn, throw
     * when it already depends on `dependent`, otherwise add `dependent` to
     * its hash set.
     */
    method AddDependency(dependent: string, triggers: seq<string>) returns (r: Outcome<LoopTriggerException>)
      requires Valid()
      modifies depends, depends.entries.Values
      ensures Valid()
      ensures Registration(Graph(), r) == AddTriggers(old(Graph()), dependent, triggers)
    {
      var snapshot := triggers;
      var i := 0;
      while i < |snapshot|
        invariant 0 <= i <= |snapshot|
        invariant Valid()
        invariant forall p :: p in depends.entries ==>
          depends.entries[p] in old(depends.entries.Values) || fresh(depends.entries[p])
        invariant AddTriggers(old(Graph()), dependent, triggers) == AddTriggers(Graph(), dependent, snapshot[i..])
      {
        assert snapshot[i..][0] == snapshot[i] && snapshot[i..][1..] == snapshot[i + 1..];
        r := AddTrigger(dependent, snapshot[i]);
        if r.Fail? {
          return;
        }
        i := i + 1;
      }
      r := Pass;
    }

    /** One pass of the loop in `AddDependency`: check `trigger`, then register it. */
    method AddTrigger(dependent: string, trigger: string) returns (r: Outcome<LoopTriggerException>)
      requires Valid()
      modifies depends, depends.entries.Values
      ensures Valid()
      ensures forall p :: p in depends.entries ==>
        depends.entries[p] in old(depends.entries.Values) || fresh(depends.entries[p])
      ensures Registration(Graph(), r) == AddTriggers(old(Graph()), dependent, [trigger])
    {
      assert [trigger][1..] == [];
      if dependent in depends.entries && trigger in depends.entries[dependent].items {
        assert trigger in Dependents(Graph(), dependent);
        return Fail(LoopTriggerException(trigger, dependent));
      }
      SetOrAddItem(depends, trigger, dependent);
      r := Pass;
    }
  }
}
