/** The re-entrancy table of property writes (`PropertyUpdateStack`): for each property whose
    write event is in flight it records the value being written, how many writes of that
    property are nested, and whether the innermost registration pushed a new value. */
module UpdateStack {
  import opened Values

  datatype Item = Item(value: Value, stackLevel: nat, isPushed: bool)

  type Table = map<string, Item>

  /** Every entry of the table belongs to at least one write in flight. */
  predicate WellFormed(t: Table)
  {
    forall name :: name in t ==> t[name].stackLevel >= 1
  }

  /** `registerPropertyUpdating`: the first registration of a name creates an entry at level 1;
      re-registering the value already registered is refused; registering a different value
      replaces it, marks it pushed and nests one level deeper. */
  function Register(t: Table, name: string, value: Value): (r: (bool, Table))
    ensures name !in t ==> r.0 && r.1 == t[name := Item(value, 1, true)]
    ensures name in t && t[name].value == value ==> !r.0 && r.1 == t
    ensures name in t && t[name].value != value ==>
              r.0 && r.1 == t[name := Item(value, t[name].stackLevel + 1, true)]
    ensures WellFormed(t) ==> WellFormed(r.1)
    ensures r.1.Keys == t.Keys + {name}
  {
    if name !in t then (true, t[name := Item(value, 1, true)])
    else if t[name].value == value then (false, t)
    else (true, t[name := Item(value, t[name].stackLevel + 1, true)])
  }

  /** `unregisetPropertyUpdating`: an unknown name reports false and changes nothing; otherwise
      the level drops by one, the pushed mark is cleared and its previous state is reported,
      and the entry disappears exactly when its level reaches zero. */
  function Unregister(t: Table, name: string): (r: (bool, Table))
    requires WellFormed(t)
    ensures name !in t ==> !r.0 && r.1 == t
    ensures name in t ==> r.0 == t[name].isPushed
    ensures name in t && t[name].stackLevel == 1 ==> r.1 == t - {name}
    ensures name in t && t[name].stackLevel > 1 ==>
              r.1 == t[name := Item(t[name].value, t[name].stackLevel - 1, false)]
    ensures WellFormed(r.1)
  {
    if name !in t then (false, t)
    else
      var item := t[name];
      if item.stackLevel == 1 then (item.isPushed, t - {name})
      else (item.isPushed, t[name := Item(item.value, item.stackLevel - 1, false)])
  }

  /** A registration followed by its unregistration leaves the table as it was when the name
      was not yet in flight; when it was, only the recorded value changes and the pushed mark
      is cleared. In both cases the unregistration reports that the write must be applied. */
  lemma RegisterUnregister(t: Table, name: string, value: Value)
    requires WellFormed(t)
    requires name !in t || t[name].value != value
    ensures WellFormed(Register(t, name, value).1)
    ensures Unregister(Register(t, name, value).1, name).0
    ensures name !in t ==> Unregister(Register(t, name, value).1, name).1 == t
    ensures name in t ==>
              Unregister(Register(t, name, value).1, name).1
                == t[name := Item(value, t[name].stackLevel, false)]
  {
    var t1 := Register(t, name, value).1;
    if name !in t {
      assert t1[name].stackLevel == 1;
      assert t1 - {name} == t;
    } else {
      assert t1[name].stackLevel == t[name].stackLevel + 1 > 1;
    }
  }

  /** A nested registration with a value that differs at every step raises the level by one
      per step; this is the count the stack keeps of re-entrant writes of a property. */
  function RegisterAll(t: Table, name: string, values: seq<Value>): Table
    decreases |values|
  {
    if values == [] then t else RegisterAll(Register(t, name, values[0]).1, name, values[1..])
  }

  predicate Alternating(first: Value, values: seq<Value>)
  {
    && (values != [] ==> values[0] != first)
    && forall k :: 0 < k < |values| ==> values[k] != values[k - 1]
  }

  lemma {:induction false} RegisterAllLevel(t: Table, name: string, values: seq<Value>)
    requires name in t
    requires Alternating(t[name].value, values)
    ensures name in RegisterAll(t, name, values)
    ensures RegisterAll(t, name, values)[name].stackLevel == t[name].stackLevel + |values|
    ensures values != [] ==> RegisterAll(t, name, values)[name] == Item(values[|values| - 1], t[name].stackLevel + |values|, true)
    decreases |values|
  {
    if values != [] {
      assert values[0] != t[name].value;
      var t1 := Register(t, name, values[0]).1;
      assert t1[name] == Item(values[0], t[name].stackLevel + 1, true);
      assert Alternating(t1[name].value, values[1..]) by {
        if |values| > 1 {
          assert values[1..][0] == values[1] != values[0];
        }
        forall k | 0 < k < |values[1..]|
          ensures values[1..][k] != values[1..][k - 1]
        {
          assert values[1..][k] == values[k + 1];
        }
      }
      RegisterAllLevel(t1, name, values[1..]);
    }
  }

  /** The table itself, updated in place as the source does with its `std::map`. */
  class PropertyUpdateStack {
    var items: Table

    ghost predicate Valid()
      reads this
    {
      WellFormed(items)
    }

    constructor ()
      ensures Valid() && items == map[]
    {
      items := map[];
    }

    /** Returns true when this write of `name` must go ahead (it is not a repeat of the value
        already being written). */
    method RegisterPropertyUpdating(name: string, value: Value) returns (registered: bool)
      requires Valid()
      modifies this
      ensures Valid()
      ensures (registered, items) == Register(old(items), name, value)
    {
      if name !in items {
        items := items[name := Item(value, 1, true)];
        return true;
      }
      var item := items[name];
      if item.value == value {
        return false;
      }
      items := items[name := Item(value, item.stackLevel + 1, true)];
      registered := true;
    }

    /** Returns true when the value registered last still has to be written. */
    method UnregisterPropertyUpdating(name: string) returns (shouldWrite: bool)
      requires Valid()
      modifies this
      ensures Valid()
      ensures (shouldWrite, items) == Unregister(old(items), name)
    {
      if name !in items {
        return false;
      }
      var item := items[name];
      shouldWrite := item.isPushed;
      if item.stackLevel - 1 == 0 {
        items := items - {name};
      } else {
        items := items[name := Item(item.value, item.stackLevel - 1, false)];
      }
    }

    method IsBaseStackLevel(name: string) returns (isBase: bool)
      requires Valid()
      ensures isBase <==> name in items && items[name].stackLevel == 1
    {
      isBase := name in items && items[name].stackLevel == 1;
    }

    /** The value being written for `name`, if a write of it is in flight; `Null` while the
        property is being cleared. */
    method GetPropertyValue(name: string) returns (found: Option<Value>)
      requires Valid()
      ensures found.Some? <==> name in items
      ensures found.Some? ==> found.value == items[name].value
    {
      if name in items {
        found := Some(items[name].value);
      } else {
        found := None;
      }
    }
  }
}
