/** The two orders the engine hands out: the property list of `getPropertiesInternal` (class
    properties, then local ones, merged by name into an insertion-ordered lookup, then the
    custom order first) and the key order of `serializePropertyValues` (the custom order first,
    then ascending name). Both share one custom-order pass over a keyed sequence. */
module Ordering {
  import opened Values
  import opened Properties

  // ---------------------------------------------------------------------------------------
  // Keyed sequences

  /** The position of the first item whose key is `k`. */
  function IndexOfKey<T(!new)>(items: seq<T>, key: T -> string, k: string): (r: Option<nat>)
    ensures r.Some? ==> r.value < |items| && key(items[r.value]) == k
    ensures r.Some? ==> forall j :: 0 <= j < r.value ==> key(items[j]) != k
    ensures r.None? <==> forall j :: 0 <= j < |items| ==> key(items[j]) != k
    decreases |items|
  {
    if items == [] then None
    else if key(items[0]) == k then Some(0)
    else match IndexOfKey(items[1..], key, k)
      case None => None
      case Some(j) => Some(j + 1)
  }

  /** No two items share a key. */
  ghost predicate UniqueKeys<T(!new)>(items: seq<T>, key: T -> string)
  {
    forall i, j :: 0 <= i < j < |items| ==> key(items[i]) != key(items[j])
  }

  /** The position of `k` in the custom order, or the length of the order when it is absent. */
  function Position(order: seq<string>, k: string): (r: nat)
    ensures r <= |order|
    ensures r < |order| <==> k in order
    ensures r < |order| ==> order[r] == k && k !in order[..r]
  {
    match IndexOfKey(order, Itself, k)
    case Some(p) => p
    case None => |order|
  }

  /** A string as its own key. */
  function Itself(k: string): string
  {
    k
  }

  /** The items that the custom-order pass does not move: it moves an item when its key is
      named in `names` and `movable` holds of it. */
  function Without<T(!new)>(items: seq<T>, key: T -> string, names: seq<string>, movable: T -> bool): (r: seq<T>)
    ensures |r| <= |items|
    decreases |items|
  {
    if items == [] then []
    else (if key(items[0]) in names && movable(items[0]) then [] else [items[0]])
         + Without(items[1..], key, names, movable)
  }

  /** The custom-order pass: for each name of `order` in turn, the item of that name still in
      `rest`, if any and if it is movable, is appended to `front` and erased from `rest`. */
  function TakeOrdered<T(!new)>(items: seq<T>, key: T -> string, movable: T -> bool, order: seq<string>)
    : (r: (seq<T>, seq<T>))
    decreases |order|
  {
    if order == [] then ([], items)
    else
      var (front, rest) := TakeOrdered(items, key, movable, order[..|order| - 1]);
      match IndexOfKey(rest, key, order[|order| - 1])
      case None => (front, rest)
      case Some(k) =>
        if movable(rest[k]) then (front + [rest[k]], rest[..k] + rest[k + 1..]) else (front, rest)
  }

  // ---------------------------------------------------------------------------------------
  // Lemmas about the custom-order pass

  /** One more name of the order makes one more step of the pass. */
  lemma TakeOrderedStep<T(!new)>(items: seq<T>, key: T -> string, movable: T -> bool, order: seq<string>, j: nat)
    requires j < |order|
    ensures var (front, rest) := TakeOrdered(items, key, movable, order[..j]);
            TakeOrdered(items, key, movable, order[..j + 1])
              == match IndexOfKey(rest, key, order[j])
                 case None => (front, rest)
                 case Some(k) =>
                   if movable(rest[k]) then (front + [rest[k]], rest[..k] + rest[k + 1..]) else (front, rest)
  {
    assert order[..j + 1][..j] == order[..j];
  }

  lemma {:induction false} WithoutMember<T(!new)>(items: seq<T>, key: T -> string, names: seq<string>, movable: T -> bool, x: T)
    ensures x in Without(items, key, names, movable) <==> x in items && !(key(x) in names && movable(x))
    decreases |items|
  {
    if items != [] {
      WithoutMember(items[1..], key, names, movable, x);
      assert items == [items[0]] + items[1..];
    }
  }

  lemma {:induction false} WithoutNothing<T(!new)>(items: seq<T>, key: T -> string, names: seq<string>, movable: T -> bool)
    requires forall j :: 0 <= j < |items| ==> !(key(items[j]) in names && movable(items[j]))
    ensures Without(items, key, names, movable) == items
    decreases |items|
  {
    if items != [] {
      assert forall j :: 0 <= j < |items[1..]| ==> items[1..][j] == items[j + 1];
      WithoutNothing(items[1..], key, names, movable);
      assert items == [items[0]] + items[1..];
    }
  }

  lemma {:induction false} WithoutConcat<T(!new)>(a: seq<T>, b: seq<T>, key: T -> string, names: seq<string>, movable: T -> bool)
    ensures Without(a + b, key, names, movable) == Without(a, key, names, movable) + Without(b, key, names, movable)
    decreases |a|
  {
    if a != [] {
      assert (a + b)[1..] == a[1..] + b;
      WithoutConcat(a[1..], b, key, names, movable);
    } else {
      assert a + b == b;
    }
  }

  /** Leaving out `names` and then `m` leaves out `names + [m]`. */
  lemma {:induction false} WithoutTwice<T(!new)>(items: seq<T>, key: T -> string, names: seq<string>, m: string, movable: T -> bool)
    ensures Without(Without(items, key, names, movable), key, [m], movable) == Without(items, key, names + [m], movable)
    decreases |items|
  {
    if items != [] {
      WithoutTwice(items[1..], key, names, m, movable);
      var head := if key(items[0]) in names && movable(items[0]) then [] else [items[0]];
      WithoutConcat(head, Without(items[1..], key, names, movable), key, [m], movable);
      assert key(items[0]) in names + [m] <==> key(items[0]) in names || key(items[0]) == m;
      if head != [] {
        assert Without(head, key, [m], movable)
            == (if key(items[0]) in [m] && movable(items[0]) then [] else [items[0]]) + Without(head[1..], key, [m], movable);
      }
    }
  }

  lemma UniqueTail<T(!new)>(s: seq<T>, key: T -> string)
    requires UniqueKeys(s, key) && s != []
    ensures UniqueKeys(s[1..], key)
    ensures forall j :: 0 <= j < |s[1..]| ==> key(s[1..][j]) != key(s[0])
  {
    assert forall j :: 0 <= j < |s[1..]| ==> s[1..][j] == s[j + 1];
  }

  lemma {:induction false} WithoutKeepsUnique<T(!new)>(items: seq<T>, key: T -> string, names: seq<string>, movable: T -> bool)
    requires UniqueKeys(items, key)
    ensures UniqueKeys(Without(items, key, names, movable), key)
    decreases |items|
  {
    if items != [] {
      UniqueTail(items, key);
      WithoutKeepsUnique(items[1..], key, names, movable);
      var tail := Without(items[1..], key, names, movable);
      forall j | 0 <= j < |tail| ensures key(tail[j]) != key(items[0]) {
        assert tail[j] in tail;
        WithoutMember(items[1..], key, names, movable, tail[j]);
      }
    }
  }

  lemma EraseFirstIsWithout<T(!new)>(s: seq<T>, key: T -> string, movable: T -> bool)
    requires UniqueKeys(s, key) && s != [] && movable(s[0])
    ensures s[1..] == Without(s, key, [key(s[0])], movable)
  {
    UniqueTail(s, key);
    forall j | 0 <= j < |s[1..]| ensures !(key(s[1..][j]) in [key(s[0])] && movable(s[1..][j])) {
      assert key(s[1..][j]) != key(s[0]);
    }
    WithoutNothing(s[1..], key, [key(s[0])], movable);
  }

  /** A head item whose key is not named is kept in front of the rest. */
  lemma WithoutKeeps<T(!new)>(items: seq<T>, key: T -> string, names: seq<string>, movable: T -> bool)
    requires items != [] && key(items[0]) !in names
    ensures Without(items, key, names, movable) == [items[0]] + Without(items[1..], key, names, movable)
  {
  }

  /** Erasing the one item with a given key from a sequence with unique keys is what the
      custom-order pass does for that key. */
  lemma {:induction false} EraseIsWithout<T(!new)>(s: seq<T>, key: T -> string, k: nat, movable: T -> bool)
    requires UniqueKeys(s, key) && k < |s| && movable(s[k])
    ensures s[..k] + s[k + 1..] == Without(s, key, [key(s[k])], movable)
    decreases k
  {
    if k == 0 {
      assert s[..0] + s[1..] == s[1..];
      EraseFirstIsWithout(s, key, movable);
    } else {
      UniqueTail(s, key);
      EraseIsWithout(s[1..], key, k - 1, movable);
      assert s[1..][k - 1] == s[k];
      assert key(s[0]) != key(s[k]);
      WithoutKeeps(s, key, [key(s[k])], movable);
      assert s[1..][..k - 1] + s[1..][k..] == s[1..k] + s[k + 1..];
      assert s[..k] + s[k + 1..] == [s[0]] + (s[1..k] + s[k + 1..]);
    }
  }

  lemma PositionExtends(order: seq<string>, m: string, k: string)
    requires k in order
    ensures Position(order + [m], k) == Position(order, k)
  {
    var p := Position(order, k);
    assert (order + [m])[p] == k;
    assert (order + [m])[..p] == order[..p];
    assert order == (order + [m])[..|order|];
  }

  lemma PositionOfLast(order: seq<string>, m: string)
    requires m !in order
    ensures Position(order + [m], m) == |order|
  {
    assert (order + [m])[|order|] == m;
    assert order == (order + [m])[..|order|];
  }

  /** The items the custom-order pass leaves where they were are those it was not asked to
      move, in their original order. */
  lemma {:induction false} TakeOrderedRest<T(!new)>(items: seq<T>, key: T -> string, movable: T -> bool, order: seq<string>)
    requires UniqueKeys(items, key)
    ensures TakeOrdered(items, key, movable, order).1 == Without(items, key, order, movable)
    decreases |order|
  {
    if order == [] {
      WithoutNothing(items, key, order, movable);
    } else {
      var prev := order[..|order| - 1];
      var m := order[|order| - 1];
      assert order == prev + [m];
      TakeOrderedRest(items, key, movable, prev);
      var rest := TakeOrdered(items, key, movable, prev).1;
      WithoutKeepsUnique(items, key, prev, movable);
      WithoutTwice(items, key, prev, m, movable);
      match IndexOfKey(rest, key, m)
      case None =>
        WithoutNothing(rest, key, [m], movable);
      case Some(k) =>
        if movable(rest[k]) {
          EraseIsWithout(rest, key, k, movable);
        } else {
          WithoutNothing(rest, key, [m], movable);
        }
    }
  }

  /** An item is moved to the front exactly when it is movable and `order` names its key. */
  lemma {:induction false} TakeOrderedMember<T(!new)>(items: seq<T>, key: T -> string, movable: T -> bool, order: seq<string>, x: T)
    requires UniqueKeys(items, key)
    ensures x in TakeOrdered(items, key, movable, order).0 <==> x in items && key(x) in order && movable(x)
    decreases |order|
  {
    if order != [] {
      var prev := order[..|order| - 1];
      var m := order[|order| - 1];
      assert order == prev + [m];
      TakeOrderedMember(items, key, movable, prev, x);
      TakeOrderedRest(items, key, movable, prev);
      var (front, rest) := TakeOrdered(items, key, movable, prev);
      WithoutKeepsUnique(items, key, prev, movable);
      WithoutMember(items, key, prev, movable, x);
      match IndexOfKey(rest, key, m)
      case None =>
      case Some(k) =>
        WithoutMember(items, key, prev, movable, rest[k]);
        if x in rest {
          var j :| 0 <= j < |rest| && rest[j] == x;
          assert key(x) == m ==> j == k;
        }
    }
  }

  /** The moved items keep the order in which `order` first names their keys. */
  lemma {:induction false} TakeOrderedPositions<T(!new)>(items: seq<T>, key: T -> string, movable: T -> bool, order: seq<string>)
    requires UniqueKeys(items, key)
    ensures forall i, j :: 0 <= i < j < |TakeOrdered(items, key, movable, order).0| ==>
              Position(order, key(TakeOrdered(items, key, movable, order).0[i]))
                < Position(order, key(TakeOrdered(items, key, movable, order).0[j]))
    decreases |order|
  {
    if order != [] {
      var prev := order[..|order| - 1];
      var m := order[|order| - 1];
      assert order == prev + [m];
      TakeOrderedPositions(items, key, movable, prev);
      TakeOrderedRest(items, key, movable, prev);
      var (front, rest) := TakeOrdered(items, key, movable, prev);
      forall i | 0 <= i < |front|
        ensures key(front[i]) in prev && Position(order, key(front[i])) == Position(prev, key(front[i]))
      {
        assert front[i] in front;
        TakeOrderedMember(items, key, movable, prev, front[i]);
        PositionExtends(prev, m, key(front[i]));
      }
      match IndexOfKey(rest, key, m)
      case None =>
      case Some(k) =>
        if movable(rest[k]) {
          assert rest[k] in rest;
          WithoutMember(items, key, prev, movable, rest[k]);
          PositionOfLast(prev, m);
        }
    }
  }

  lemma MoveToFront<T>(front: seq<T>, rest: seq<T>, k: nat)
    requires k < |rest|
    ensures multiset(front + [rest[k]] + (rest[..k] + rest[k + 1..])) == multiset(front + rest)
  {
    var before, x, after := rest[..k], rest[k], rest[k + 1..];
    assert rest == before + [x] + after;
    assert multiset(rest) == multiset(before) + multiset([x]) + multiset(after);
    assert multiset(front + [x] + (before + after))
        == multiset(front) + multiset([x]) + multiset(before) + multiset(after);
  }

  /** The pass loses and gains nothing. */
  lemma {:induction false} TakeOrderedPermutes<T(!new)>(items: seq<T>, key: T -> string, movable: T -> bool, order: seq<string>)
    ensures multiset(TakeOrdered(items, key, movable, order).0 + TakeOrdered(items, key, movable, order).1) == multiset(items)
    decreases |order|
  {
    if order != [] {
      var prev := order[..|order| - 1];
      TakeOrderedPermutes(items, key, movable, prev);
      var (front, rest) := TakeOrdered(items, key, movable, prev);
      match IndexOfKey(rest, key, order[|order| - 1])
      case None =>
      case Some(k) =>
        if movable(rest[k]) {
          MoveToFront(front, rest, k);
        }
    }
  }

  /** Every item that names `order` and may move comes before every other item, and the moved
      ones keep the order of `order`. */
  lemma {:induction false} TakeOrderedShape<T(!new)>(items: seq<T>, key: T -> string, movable: T -> bool, order: seq<string>)
    requires UniqueKeys(items, key)
    ensures var (front, rest) := TakeOrdered(items, key, movable, order);
      forall i, j :: 0 <= i < j < |front + rest| && key((front + rest)[j]) in order && movable((front + rest)[j]) ==>
        key((front + rest)[i]) in order && movable((front + rest)[i])
        && Position(order, key((front + rest)[i])) < Position(order, key((front + rest)[j]))
  {
    var (front, rest) := TakeOrdered(items, key, movable, order);
    TakeOrderedPositions(items, key, movable, order);
    TakeOrderedRest(items, key, movable, order);
    var s := front + rest;
    forall i, j | 0 <= i < j < |s| && key(s[j]) in order && movable(s[j])
      ensures key(s[i]) in order && movable(s[i]) && Position(order, key(s[i])) < Position(order, key(s[j]))
    {
      if j >= |front| {
        assert s[j] in rest;
        WithoutMember(items, key, order, movable, s[j]);
        assert false;
      }
      assert s[i] == front[i] && s[j] == front[j];
      assert front[i] in front;
      TakeOrderedMember(items, key, movable, order, front[i]);
    }
  }

  // ---------------------------------------------------------------------------------------
  // `getPropertiesInternal`

  function NameOf(p: Property): string
  {
    p.name
  }

  function Always(p: Property): bool
  {
    true
  }

  /** A bound listing leaves out, unless invisible properties are asked for, the referenced
      properties and those that are not visible. */
  predicate Listed(p: Property, includeInvisible: bool)
  {
    includeInvisible || (!p.isReferenced && p.visible)
  }

  /** One step of building the insertion-ordered lookup. Without binding the first property of
      a name stays (`insert`); with binding a listed property replaces the one of its name in
      place or is appended (`insert_or_assign`), and an unlisted one is skipped. */
  function AddToLookup(lookup: seq<Property>, p: Property, includeInvisible: bool, bind: bool): seq<Property>
  {
    if !bind then
      if IndexOfKey(lookup, NameOf, p.name).Some? then lookup else lookup + [p]
    else if !Listed(p, includeInvisible) then lookup
    else
      match IndexOfKey(lookup, NameOf, p.name)
      case Some(k) => lookup[k := p]
      case None => lookup + [p]
  }

  /** The lookup after adding `all` in turn. */
  function BuildLookup(all: seq<Property>, includeInvisible: bool, bind: bool): seq<Property>
    decreases |all|
  {
    if all == [] then []
    else AddToLookup(BuildLookup(all[..|all| - 1], includeInvisible, bind), all[|all| - 1], includeInvisible, bind)
  }

  /** `getPropertiesInternal`: class properties, then local ones, merged by name, then the
      custom order first and the remaining entries in lookup order. Asking for only the visible
      properties of an unbound listing is refused. */
  function GetProperties(local: seq<Property>, cls: seq<Property>, order: seq<string>,
                         includeInvisible: bool, bind: bool): Result<seq<Property>>
  {
    if !includeInvisible && !bind then Err(InvalidParameter)
    else
      var (front, rest) := TakeOrdered(BuildLookup(cls + local, includeInvisible, bind), NameOf, Always, order);
      Ok(front + rest)
  }

  /** The first property of a name, the reference for an unbound listing. */
  function FirstNamed(all: seq<Property>, n: string): Option<Property>
  {
    match IndexOfKey(all, NameOf, n)
    case Some(k) => Some(all[k])
    case None => None
  }

  /** The last listed property of a name, the reference for a bound listing. */
  function LastListed(all: seq<Property>, n: string, includeInvisible: bool): Option<Property>
    decreases |all|
  {
    if all == [] then None
    else if all[|all| - 1].name == n && Listed(all[|all| - 1], includeInvisible) then Some(all[|all| - 1])
    else LastListed(all[..|all| - 1], n, includeInvisible)
  }

  lemma {:induction false} LookupUnique(all: seq<Property>, includeInvisible: bool, bind: bool)
    ensures UniqueKeys(BuildLookup(all, includeInvisible, bind), NameOf)
    decreases |all|
  {
    if all != [] {
      var prev := BuildLookup(all[..|all| - 1], includeInvisible, bind);
      LookupUnique(all[..|all| - 1], includeInvisible, bind);
      var p := all[|all| - 1];
      match IndexOfKey(prev, NameOf, p.name)
      case Some(k) =>
        assert forall j :: 0 <= j < |prev| ==> NameOf(prev[k := p][j]) == NameOf(prev[j]);
      case None =>
        assert forall j :: 0 <= j < |prev| ==> (prev + [p])[j] == prev[j];
    }
  }

  lemma FirstNamedSnoc(all: seq<Property>, p: Property, n: string)
    ensures FirstNamed(all + [p], n)
              == if FirstNamed(all, n).Some? then FirstNamed(all, n) else if p.name == n then Some(p) else None
  {
    assert (all + [p])[..|all|] == all;
    assert (all + [p])[|all|] == p;
  }

  /** Without binding, the lookup holds exactly the first property of each name. */
  lemma {:induction false} UnboundLookupIsFirst(all: seq<Property>, includeInvisible: bool, x: Property)
    ensures x in BuildLookup(all, includeInvisible, false) <==> FirstNamed(all, x.name) == Some(x)
    decreases |all|
  {
    if all != [] {
      var prefix, p := all[..|all| - 1], all[|all| - 1];
      assert all == prefix + [p];
      var prev := BuildLookup(prefix, includeInvisible, false);
      UnboundLookupIsFirst(prefix, includeInvisible, x);
      FirstNamedSnoc(prefix, p, x.name);
      match IndexOfKey(prev, NameOf, p.name)
      case Some(k) =>
        UnboundLookupIsFirst(prefix, includeInvisible, prev[k]);
        FirstNamedSnoc(prefix, p, p.name);
      case None =>
        FirstNamedSnoc(prefix, p, p.name);
        if FirstNamed(prefix, p.name).Some? {
          UnboundLookupIsFirst(prefix, includeInvisible, FirstNamed(prefix, p.name).value);
          assert false;
        }
    }
  }

  lemma LastListedSnoc(all: seq<Property>, p: Property, n: string, includeInvisible: bool)
    ensures LastListed(all + [p], n, includeInvisible)
              == if p.name == n && Listed(p, includeInvisible) then Some(p) else LastListed(all, n, includeInvisible)
  {
    assert (all + [p])[..|all|] == all;
  }

  lemma ReplaceMember<T(!new)>(s: seq<T>, key: T -> string, k: nat, p: T, x: T)
    requires UniqueKeys(s, key) && k < |s|
    ensures x in s[k := p] <==> x == p || (x in s && x != s[k])
  {
    assert s[k := p][k] == p;
    if x in s[k := p] && x != p {
      var j :| 0 <= j < |s| && s[k := p][j] == x;
      assert j != k && s[j] == x;
    }
    if x in s && x != s[k] {
      var j :| 0 <= j < |s| && s[j] == x;
      assert s[k := p][j] == x;
    }
  }

  /** With binding, the lookup holds exactly the last listed property of each name. */
  lemma {:induction false} BoundLookupIsLast(all: seq<Property>, includeInvisible: bool, x: Property)
    ensures x in BuildLookup(all, includeInvisible, true) <==> LastListed(all, x.name, includeInvisible) == Some(x)
    decreases |all|
  {
    if all != [] {
      var prefix, p := all[..|all| - 1], all[|all| - 1];
      assert all == prefix + [p];
      var prev := BuildLookup(prefix, includeInvisible, true);
      BoundLookupIsLast(prefix, includeInvisible, x);
      LastListedSnoc(prefix, p, x.name, includeInvisible);
      if Listed(p, includeInvisible) {
        match IndexOfKey(prev, NameOf, p.name)
        case Some(k) =>
          LookupUnique(prefix, includeInvisible, true);
          if x in prev && x.name == p.name {
            var j :| 0 <= j < |prev| && prev[j] == x;
            assert j == k;
          }
          ReplaceMember(prev, NameOf, k, p, x);
        case None =>
      }
    }
  }

  lemma {:induction false} WithoutEverything<T(!new)>(items: seq<T>, key: T -> string, names: seq<string>, movable: T -> bool)
    requires forall j :: 0 <= j < |items| ==> key(items[j]) in names && movable(items[j])
    ensures Without(items, key, names, movable) == []
    decreases |items|
  {
    if items != [] {
      assert forall j :: 0 <= j < |items[1..]| ==> items[1..][j] == items[j + 1];
      WithoutEverything(items[1..], key, names, movable);
    }
  }

  lemma WithoutIdempotent<T(!new)>(items: seq<T>, key: T -> string, names: seq<string>, movable: T -> bool)
    ensures Without(Without(items, key, names, movable), key, names, movable) == Without(items, key, names, movable)
  {
    var w := Without(items, key, names, movable);
    forall j | 0 <= j < |w| ensures !(key(w[j]) in names && movable(w[j])) {
      assert w[j] in w;
      WithoutMember(items, key, names, movable, w[j]);
    }
    WithoutNothing(w, key, names, movable);
  }

  /** The pass keeps keys unique, and filtering the named items out of its result gives what
      filtering them out of its input gives. */
  lemma {:induction false} TakeOrderedUnique<T(!new)>(items: seq<T>, key: T -> string, movable: T -> bool, order: seq<string>)
    requires UniqueKeys(items, key)
    ensures UniqueKeys(TakeOrdered(items, key, movable, order).0 + TakeOrdered(items, key, movable, order).1, key)
  {
    var (front, rest) := TakeOrdered(items, key, movable, order);
    var s := front + rest;
    TakeOrderedPositions(items, key, movable, order);
    TakeOrderedRest(items, key, movable, order);
    WithoutKeepsUnique(items, key, order, movable);
    forall i, j | 0 <= i < j < |s| ensures key(s[i]) != key(s[j]) {
      if j < |front| {
        assert s[i] == front[i] && s[j] == front[j];
      } else if i >= |front| {
        assert s[i] == rest[i - |front|] && s[j] == rest[j - |front|];
      } else {
        assert s[i] == front[i] && s[j] == rest[j - |front|];
        assert front[i] in front && rest[j - |front|] in rest;
        TakeOrderedMember(items, key, movable, order, front[i]);
        WithoutMember(items, key, order, movable, rest[j - |front|]);
      }
    }
  }

  lemma {:induction false} TakeOrderedWithout<T(!new)>(items: seq<T>, key: T -> string, movable: T -> bool, order: seq<string>)
    requires UniqueKeys(items, key)
    ensures Without(TakeOrdered(items, key, movable, order).0 + TakeOrdered(items, key, movable, order).1, key, order, movable)
              == Without(items, key, order, movable)
  {
    var (front, rest) := TakeOrdered(items, key, movable, order);
    TakeOrderedRest(items, key, movable, order);
    forall j | 0 <= j < |front| ensures key(front[j]) in order && movable(front[j]) {
      assert front[j] in front;
      TakeOrderedMember(items, key, movable, order, front[j]);
    }
    WithoutConcat(front, rest, key, order, movable);
    WithoutEverything(front, key, order, movable);
    WithoutIdempotent(items, key, order, movable);
  }

  /** The listing: refused exactly for an unbound listing of only the visible properties;
      otherwise a rearrangement of the lookup with one property per name, where the properties
      the custom order names come first and in that order, and the others keep their lookup
      order. */
  lemma {:induction false} GetPropertiesShape(local: seq<Property>, cls: seq<Property>, order: seq<string>,
                                              includeInvisible: bool, bind: bool)
    ensures GetProperties(local, cls, order, includeInvisible, bind).Ok? <==> includeInvisible || bind
    ensures var r := GetProperties(local, cls, order, includeInvisible, bind);
            var lookup := BuildLookup(cls + local, includeInvisible, bind);
            r.Ok? ==>
              && multiset(r.value) == multiset(lookup)
              && UniqueKeys(r.value, NameOf)
              && (forall i, j :: 0 <= i < j < |r.value| && r.value[j].name in order ==>
                    r.value[i].name in order && Position(order, r.value[i].name) < Position(order, r.value[j].name))
              && Without(r.value, NameOf, order, Always) == Without(lookup, NameOf, order, Always)
  {
    if includeInvisible || bind {
      var lookup := BuildLookup(cls + local, includeInvisible, bind);
      LookupUnique(cls + local, includeInvisible, bind);
      TakeOrderedPermutes(lookup, NameOf, Always, order);
      TakeOrderedShape(lookup, NameOf, Always, order);
      TakeOrderedUnique(lookup, NameOf, Always, order);
      TakeOrderedWithout(lookup, NameOf, Always, order);
    }
  }

  /** With no custom order the listing is the lookup itself. */
  lemma NoOrderIsLookup(local: seq<Property>, cls: seq<Property>, includeInvisible: bool, bind: bool)
    requires includeInvisible || bind
    ensures GetProperties(local, cls, [], includeInvisible, bind) == Ok(BuildLookup(cls + local, includeInvisible, bind))
  {
    var lookup := BuildLookup(cls + local, includeInvisible, bind);
    assert [] + lookup == lookup;
  }

  /** Which property of each name is listed: without binding the first of class-then-local,
      with binding the last listed one. */
  lemma {:induction false} GetPropertiesMember(local: seq<Property>, cls: seq<Property>, order: seq<string>,
                                               includeInvisible: bool, bind: bool, x: Property)
    requires includeInvisible || bind
    ensures x in GetProperties(local, cls, order, includeInvisible, bind).value <==>
              (if bind then LastListed(cls + local, x.name, includeInvisible) == Some(x)
               else FirstNamed(cls + local, x.name) == Some(x))
  {
    var lookup := BuildLookup(cls + local, includeInvisible, bind);
    GetPropertiesShape(local, cls, order, includeInvisible, bind);
    assert x in GetProperties(local, cls, order, includeInvisible, bind).value <==> x in multiset(lookup);
    if bind {
      BoundLookupIsLast(cls + local, includeInvisible, x);
    } else {
      UnboundLookupIsFirst(cls + local, includeInvisible, x);
    }
  }

  lemma {:induction false} FirstNamedConcat(a: seq<Property>, b: seq<Property>, n: string)
    ensures FirstNamed(a + b, n) == if FirstNamed(a, n).Some? then FirstNamed(a, n) else FirstNamed(b, n)
    decreases |a|
  {
    if a != [] {
      assert (a + b)[1..] == a[1..] + b;
      FirstNamedConcat(a[1..], b, n);
    } else {
      assert a + b == b;
    }
  }

  lemma {:induction false} LastListedConcat(a: seq<Property>, b: seq<Property>, n: string, includeInvisible: bool)
    ensures LastListed(a + b, n, includeInvisible)
              == if LastListed(b, n, includeInvisible).Some? then LastListed(b, n, includeInvisible) else LastListed(a, n, includeInvisible)
    decreases |b|
  {
    if b != [] {
      var b', q := b[..|b| - 1], b[|b| - 1];
      assert a + b == (a + b') + [q];
      LastListedSnoc(a + b', q, n, includeInvisible);
      LastListedSnoc(b', q, n, includeInvisible);
      assert b == b' + [q];
      LastListedConcat(a, b', n, includeInvisible);
    } else {
      assert a + b == a;
    }
  }

  /** An unbound listing keeps the class property where a local property has the same name. */
  lemma ClassShadowsLocal(local: seq<Property>, cls: seq<Property>, order: seq<string>, c: Property, x: Property)
    requires FirstNamed(cls, c.name) == Some(c) && x.name == c.name
    ensures x in GetProperties(local, cls, order, true, false).value <==> x == c
  {
    GetPropertiesMember(local, cls, order, true, false, x);
    FirstNamedConcat(cls, local, c.name);
  }

  /** A bound listing shows the local property where a class property has the same name, as
      long as the local one is listed. */
  lemma LocalOverridesClass(local: seq<Property>, cls: seq<Property>, order: seq<string>, includeInvisible: bool,
                            l: Property, x: Property)
    requires LastListed(local, l.name, includeInvisible) == Some(l) && x.name == l.name
    ensures x in GetProperties(local, cls, order, includeInvisible, true).value <==> x == l
  {
    GetPropertiesMember(local, cls, order, includeInvisible, true, x);
    LastListedConcat(cls, local, l.name, includeInvisible);
  }

  // ---------------------------------------------------------------------------------------
  // `serializePropertyValues`

  /** The order of the sorted map the values are copied into: character by character, a
      proper prefix first. */
  predicate LexLess(a: string, b: string)
    decreases |a|
  {
    b != [] && (a == [] || a[0] < b[0] || (a[0] == b[0] && LexLess(a[1..], b[1..])))
  }

  lemma {:induction false} LexIrreflexive(a: string)
    ensures !LexLess(a, a)
    decreases |a|
  {
    if a != [] {
      LexIrreflexive(a[1..]);
    }
  }

  lemma {:induction false} LexAsymmetric(a: string, b: string)
    ensures LexLess(a, b) ==> !LexLess(b, a)
    decreases |a|
  {
    if a != [] && b != [] && a[0] == b[0] {
      LexAsymmetric(a[1..], b[1..]);
    }
  }

  lemma {:induction false} LexTransitive(a: string, b: string, c: string)
    requires LexLess(a, b) && LexLess(b, c)
    ensures LexLess(a, c)
    decreases |a|
  {
    if a != [] && a[0] == b[0] && b[0] == c[0] {
      LexTransitive(a[1..], b[1..], c[1..]);
    }
  }

  lemma {:induction false} LexTotal(a: string, b: string)
    ensures a == b || LexLess(a, b) || LexLess(b, a)
    decreases |a|
  {
    if a != [] && b != [] && a[0] == b[0] {
      LexTotal(a[1..], b[1..]);
      if a[1..] == b[1..] {
        assert a == [a[0]] + a[1..] && b == [b[0]] + b[1..];
      }
    }
  }

  /** `m` is the least key of `keys`. */
  predicate IsLeast(m: string, keys: set<string>)
  {
    m in keys && forall k :: k in keys && k != m ==> LexLess(m, k)
  }

  lemma {:induction false} LeastExists(keys: set<string>)
    requires keys != {}
    ensures exists m :: IsLeast(m, keys)
    decreases |keys|
  {
    var x :| x in keys;
    if keys - {x} == {} {
      assert keys == {x};
      assert IsLeast(x, keys);
    } else {
      LeastExists(keys - {x});
      var m :| IsLeast(m, keys - {x});
      LexTotal(m, x);
      if LexLess(m, x) {
        assert IsLeast(m, keys);
      } else {
        forall k | k in keys && k != x ensures LexLess(x, k) {
          if k != m {
            LexTransitive(x, m, k);
          }
        }
        assert IsLeast(x, keys);
      }
    }
  }

  lemma LeastUnique(keys: set<string>)
    ensures forall m1, m2 :: IsLeast(m1, keys) && IsLeast(m2, keys) ==> m1 == m2
  {
    forall m1, m2 | IsLeast(m1, keys) && IsLeast(m2, keys) ensures m1 == m2 {
      LexAsymmetric(m1, m2);
    }
  }

  /** The keys in ascending order. */
  predicate Ascending(s: seq<string>)
  {
    forall i, j :: 0 <= i < j < |s| ==> LexLess(s[i], s[j])
  }

  /** The keys of a set, ascending: the iteration order of the sorted copy. */
  function SortedKeys(keys: set<string>): (r: seq<string>)
    ensures forall k :: k in r <==> k in keys
    ensures Ascending(r)
    decreases |keys|
  {
    if keys == {} then []
    else
      LeastExists(keys);
      LeastUnique(keys);
      var m :| IsLeast(m, keys);
      var tail := SortedKeys(keys - {m});
      LeastFirst(m, keys, tail);
      [m] + tail
  }

  lemma LeastFirst(m: string, keys: set<string>, tail: seq<string>)
    requires IsLeast(m, keys)
    requires forall k :: k in tail <==> k in keys - {m}
    requires Ascending(tail)
    ensures forall k :: k in [m] + tail <==> k in keys
    ensures Ascending([m] + tail)
  {
    var s := [m] + tail;
    forall i, j | 0 <= i < j < |s| ensures LexLess(s[i], s[j]) {
      assert s[j] == tail[j - 1] && s[j] in tail;
      if i > 0 {
        assert s[i] == tail[i - 1];
      }
    }
  }

  /** The stored values by name (`propValues`). */
  type ValueMap = map<string, Value>

  /** A key-value pair handed to the serializer. */
  type Entry = (string, Value)

  /** `serializePropertyValue` writes a null value, or one that is serializable; the read
      access check comes first. */
  predicate Emitted(v: Value, serializable: Value -> bool, readable: Value -> bool)
  {
    readable(v) && (v == Null || serializable(v))
  }

  /** What writing the value stored under `k` hands to the serializer. */
  function EntryOf(vals: ValueMap, k: string, serializable: Value -> bool, readable: Value -> bool): seq<Entry>
  {
    if k in vals && Emitted(vals[k], serializable, readable) then [(k, vals[k])] else []
  }

  /** Writing the values stored under `names`, in turn. */
  function WriteAll(vals: ValueMap, names: seq<string>, serializable: Value -> bool, readable: Value -> bool): seq<Entry>
    decreases |names|
  {
    if names == [] then []
    else WriteAll(vals, names[..|names| - 1], serializable, readable) + EntryOf(vals, names[|names| - 1], serializable, readable)
  }

  lemma WriteAllStep(vals: ValueMap, names: seq<string>, k: nat, serializable: Value -> bool, readable: Value -> bool)
    requires k < |names|
    ensures WriteAll(vals, names[..k + 1], serializable, readable)
              == WriteAll(vals, names[..k], serializable, readable) + EntryOf(vals, names[k], serializable, readable)
  {
    assert names[..k + 1][..k] == names[..k];
  }

  /** How many of the values stored under `names` support serialization. */
  function CountSerializable(vals: ValueMap, names: seq<string>, serializable: Value -> bool): nat
    decreases |names|
  {
    if names == [] then 0
    else
      var k := names[|names| - 1];
      CountSerializable(vals, names[..|names| - 1], serializable)
        + (if k in vals && vals[k] != Null && serializable(vals[k]) then 1 else 0)
  }

  lemma CountStep(vals: ValueMap, names: seq<string>, i: nat, serializable: Value -> bool)
    requires i < |names|
    ensures CountSerializable(vals, names[..i + 1], serializable)
              == CountSerializable(vals, names[..i], serializable)
                 + (if names[i] in vals && vals[names[i]] != Null && serializable(vals[names[i]]) then 1 else 0)
  {
    assert names[..i + 1][..i] == names[..i];
  }

  /** The custom-order pass moves a key only when its value may be read. */
  function ReadableKey(vals: ValueMap, readable: Value -> bool): string -> bool
  {
    k => k in vals && readable(vals[k])
  }

  /** `serializePropertyValues`: nothing at all (no `propValues` object) when no stored value
      is serializable; otherwise the readable values, first those the custom order names, in
      that order, then the others in ascending name order. */
  function SerializePropertyValues(vals: ValueMap, order: seq<string>, serializable: Value -> bool,
                                   readable: Value -> bool): Option<seq<Entry>>
  {
    var sorted := SortedKeys(vals.Keys);
    if CountSerializable(vals, sorted, serializable) == 0 then None
    else
      var (front, rest) := TakeOrdered(sorted, Itself, ReadableKey(vals, readable), order);
      Some(WriteAll(vals, front, serializable, readable) + WriteAll(vals, rest, serializable, readable))
  }

  lemma {:induction false} CountZero(vals: ValueMap, names: seq<string>, serializable: Value -> bool)
    ensures CountSerializable(vals, names, serializable) == 0 <==>
              forall j :: 0 <= j < |names| ==> !(names[j] in vals && vals[names[j]] != Null && serializable(vals[names[j]]))
    decreases |names|
  {
    if names != [] {
      var prefix := names[..|names| - 1];
      CountZero(vals, prefix, serializable);
      assert forall j :: 0 <= j < |prefix| ==> prefix[j] == names[j];
    }
  }

  lemma {:induction false} WriteAllMember(vals: ValueMap, names: seq<string>, serializable: Value -> bool,
                                          readable: Value -> bool, k: string, v: Value)
    ensures (k, v) in WriteAll(vals, names, serializable, readable) <==>
              k in names && k in vals && v == vals[k] && Emitted(v, serializable, readable)
    decreases |names|
  {
    if names != [] {
      var prefix := names[..|names| - 1];
      WriteAllMember(vals, prefix, serializable, readable, k, v);
      assert names == prefix + [names[|names| - 1]];
    }
  }

  lemma {:induction false} WriteAllConcat(vals: ValueMap, a: seq<string>, b: seq<string>, serializable: Value -> bool,
                                          readable: Value -> bool)
    ensures WriteAll(vals, a + b, serializable, readable)
              == WriteAll(vals, a, serializable, readable) + WriteAll(vals, b, serializable, readable)
    decreases |b|
  {
    if b == [] {
      assert a + b == a;
    } else {
      var b' := b[..|b| - 1];
      assert (a + b)[..|a + b| - 1] == a + b';
      WriteAllConcat(vals, a, b', serializable, readable);
    }
  }

  /** A relation holds between every key and every later one. */
  ghost predicate Chain(s: seq<string>, R: (string, string) -> bool)
  {
    forall i, j :: 0 <= i < j < |s| ==> R(s[i], s[j])
  }

  /** Writing keeps the relative order of the keys written. */
  lemma {:induction false} WriteAllChain(vals: ValueMap, names: seq<string>, serializable: Value -> bool,
                                         readable: Value -> bool, R: (string, string) -> bool)
    requires Chain(names, R)
    ensures var w := WriteAll(vals, names, serializable, readable);
            forall i, j :: 0 <= i < j < |w| ==> R(w[i].0, w[j].0)
    decreases |names|
  {
    if names != [] {
      var prefix, last := names[..|names| - 1], names[|names| - 1];
      assert forall i, j :: 0 <= i < j < |prefix| ==> prefix[i] == names[i] && prefix[j] == names[j];
      WriteAllChain(vals, prefix, serializable, readable, R);
      var w' := WriteAll(vals, prefix, serializable, readable);
      forall i | 0 <= i < |w'| ensures R(w'[i].0, last) {
        assert w'[i] in w';
        WriteAllMember(vals, prefix, serializable, readable, w'[i].0, w'[i].1);
        var p :| 0 <= p < |prefix| && prefix[p] == w'[i].0;
        assert names[p] == w'[i].0;
      }
      var e := EntryOf(vals, last, serializable, readable);
      var w := w' + e;
      forall i, j | 0 <= i < j < |w| ensures R(w[i].0, w[j].0) {
        if j < |w'| {
          assert w[i] == w'[i] && w[j] == w'[j];
        } else {
          assert w[i] == w'[i] && w[j].0 == last;
        }
      }
    }
  }

  /** Leaving items out keeps the relative order of the others. */
  lemma {:induction false} WithoutChain(items: seq<string>, names: seq<string>, movable: string -> bool, R: (string, string) -> bool)
    requires Chain(items, R)
    ensures Chain(Without(items, Itself, names, movable), R)
    decreases |items|
  {
    if items != [] {
      var tail := items[1..];
      assert forall i, j :: 0 <= i < j < |tail| ==> tail[i] == items[i + 1] && tail[j] == items[j + 1];
      WithoutChain(tail, names, movable, R);
      var w := Without(tail, Itself, names, movable);
      forall j | 0 <= j < |w| ensures R(items[0], w[j]) {
        assert w[j] in w;
        WithoutMember(tail, Itself, names, movable, w[j]);
        var p :| 0 <= p < |tail| && tail[p] == w[j];
        assert items[p + 1] == w[j];
      }
    }
  }

  /** No property values object is written exactly when no stored value is serializable. */
  lemma SerializeNothing(vals: ValueMap, order: seq<string>, serializable: Value -> bool, readable: Value -> bool)
    ensures SerializePropertyValues(vals, order, serializable, readable).None? <==>
              forall k :: k in vals ==> vals[k] == Null || !serializable(vals[k])
  {
    var sorted := SortedKeys(vals.Keys);
    CountZero(vals, sorted, serializable);
    assert forall j :: 0 <= j < |sorted| ==> sorted[j] in sorted;
    if forall j :: 0 <= j < |sorted| ==> !(sorted[j] in vals && vals[sorted[j]] != Null && serializable(vals[sorted[j]])) {
      forall k | k in vals ensures vals[k] == Null || !serializable(vals[k]) {
        var j :| 0 <= j < |sorted| && sorted[j] == k;
      }
    }
  }

  /** The pairs written are exactly the readable stored values that are null or serializable. */
  lemma SerializeEntries(vals: ValueMap, order: seq<string>, serializable: Value -> bool, readable: Value -> bool,
                         k: string, v: Value)
    requires SerializePropertyValues(vals, order, serializable, readable).Some?
    ensures (k, v) in SerializePropertyValues(vals, order, serializable, readable).value <==>
              k in vals && v == vals[k] && Emitted(v, serializable, readable)
  {
    var sorted := SortedKeys(vals.Keys);
    var (front, rest) := TakeOrdered(sorted, Itself, ReadableKey(vals, readable), order);
    WriteAllConcat(vals, front, rest, serializable, readable);
    WriteAllMember(vals, front + rest, serializable, readable, k, v);
    TakeOrderedPermutes(sorted, Itself, ReadableKey(vals, readable), order);
    assert k in front + rest <==> k in multiset(sorted);
  }

  lemma AscendingUnique(s: seq<string>)
    requires Ascending(s)
    ensures UniqueKeys(s, Itself)
  {
    forall i, j | 0 <= i < j < |s| ensures s[i] != s[j] {
      LexIrreflexive(s[i]);
    }
  }

  /** The relation between a key and every later key the serialization pass produces. */
  ghost function SerializedBefore(order: seq<string>, movable: string -> bool): (string, string) -> bool
  {
    (a: string, b: string) =>
      && a != b
      && (b in order && movable(b) ==> a in order && movable(a) && Position(order, a) < Position(order, b))
      && (!(a in order && movable(a)) ==> LexLess(a, b))
  }

  lemma RestAscending(items: seq<string>, movable: string -> bool, order: seq<string>)
    requires Ascending(items)
    ensures Ascending(TakeOrdered(items, Itself, movable, order).1)
  {
    AscendingUnique(items);
    TakeOrderedRest(items, Itself, movable, order);
    WithoutChain(items, order, movable, LexLess);
  }

  /** An item the pass leaves in place comes before later items only if both were left in
      place, and then they keep their order in `items`. */
  lemma TakeOrderedRestAscending(items: seq<string>, movable: string -> bool, order: seq<string>, s: seq<string>, i: nat, j: nat)
    requires Ascending(items)
    requires s == TakeOrdered(items, Itself, movable, order).0 + TakeOrdered(items, Itself, movable, order).1
    requires i < j < |s| && !(s[i] in order && movable(s[i]))
    ensures LexLess(s[i], s[j])
  {
    var front := TakeOrdered(items, Itself, movable, order).0;
    var rest := TakeOrdered(items, Itself, movable, order).1;
    if i < |front| {
      assert front[i] in front;
      AscendingUnique(items);
      TakeOrderedMember(items, Itself, movable, order, front[i]);
      assert false;
    }
    RestAscending(items, movable, order);
    assert s[i] == rest[i - |front|] && s[j] == rest[j - |front|];
  }

  lemma {:induction false} SerializePassChain(vals: ValueMap, order: seq<string>, readable: Value -> bool)
    ensures var (front, rest) := TakeOrdered(SortedKeys(vals.Keys), Itself, ReadableKey(vals, readable), order);
            Chain(front + rest, SerializedBefore(order, ReadableKey(vals, readable)))
  {
    var sorted := SortedKeys(vals.Keys);
    var movable := ReadableKey(vals, readable);
    var (front, rest) := TakeOrdered(sorted, Itself, movable, order);
    var s := front + rest;
    AscendingUnique(sorted);
    TakeOrderedUnique(sorted, Itself, movable, order);
    TakeOrderedShape(sorted, Itself, movable, order);
    forall i, j | 0 <= i < j < |s| ensures SerializedBefore(order, movable)(s[i], s[j]) {
      assert Itself(s[i]) != Itself(s[j]);
      if !(s[i] in order && movable(s[i])) {
        TakeOrderedRestAscending(sorted, movable, order, s, i, j);
      }
    }
  }

  /** The written keys are distinct; those the custom order names come first, in that order,
      and the others follow in ascending order. */
  lemma SerializeOrder(vals: ValueMap, order: seq<string>, serializable: Value -> bool, readable: Value -> bool)
    requires SerializePropertyValues(vals, order, serializable, readable).Some?
    ensures var w := SerializePropertyValues(vals, order, serializable, readable).value;
            forall i, j :: 0 <= i < j < |w| ==>
              && w[i].0 != w[j].0
              && (w[j].0 in order ==> w[i].0 in order && Position(order, w[i].0) < Position(order, w[j].0))
              && (w[i].0 !in order ==> LexLess(w[i].0, w[j].0))
  {
    var sorted := SortedKeys(vals.Keys);
    var movable := ReadableKey(vals, readable);
    var (front, rest) := TakeOrdered(sorted, Itself, movable, order);
    SerializePassChain(vals, order, readable);
    WriteAllConcat(vals, front, rest, serializable, readable);
    WriteAllChain(vals, front + rest, serializable, readable, SerializedBefore(order, movable));
    var w := WriteAll(vals, front + rest, serializable, readable);
    forall i | 0 <= i < |w| ensures movable(w[i].0) {
      assert w[i] in w;
      WriteAllMember(vals, front + rest, serializable, readable, w[i].0, w[i].1);
    }
  }

  /** With no custom order the values are written in ascending name order. */
  lemma UnorderedIsAscending(vals: ValueMap, serializable: Value -> bool, readable: Value -> bool)
    requires SerializePropertyValues(vals, [], serializable, readable).Some?
    ensures var w := SerializePropertyValues(vals, [], serializable, readable).value;
            forall i, j :: 0 <= i < j < |w| ==> LexLess(w[i].0, w[j].0)
  {
    SerializeOrder(vals, [], serializable, readable);
  }
}
