// pkg/ironic/utils.go: overriding containers and volumes. Both functions of
// the source run the same loops over lists of named items.
module Overrides {

  datatype Item<T> = Item(name: string, body: T)

  predicate Has<T>(items: seq<Item<T>>, name: string) {
    exists k | 0 <= k < |items| :: items[k].name == name
  }

  function Last<T>(items: seq<Item<T>>, name: string): (r: Item<T>)
    requires Has(items, name)
    ensures r in items && r.name == name
  {
    var n := |items| - 1;
    if items[n].name == name then items[n]
    else
      assert forall k | 0 <= k < n :: items[..n][k] == items[k];
      Last(items[..n], name)
  }

  /* ---- What the loops compute ---- */

  // Item k is the first with its name, and there is an override for it.
  predicate Overridden<T>(items: seq<Item<T>>, overrides: seq<Item<T>>, k: nat)
    requires k < |items|
  {
    Has(overrides, items[k].name) && !Has(items[..k], items[k].name)
  }

  // Replace in place: the last override of a name goes where the name first
  // occurs; further items of that name stay.
  function Replaced<T>(items: seq<Item<T>>, overrides: seq<Item<T>>): (r: seq<Item<T>>)
    ensures |r| == |items|
    ensures forall k | 0 <= k < |r| :: r[k].name == items[k].name
  {
    seq(|items|, k requires 0 <= k < |items| =>
      if Overridden(items, overrides, k) then Last(overrides, items[k].name) else items[k])
  }

  // Append in order: every item whose name is new.
  function Added<T>(items: seq<Item<T>>, existing: seq<Item<T>>): seq<Item<T>> {
    if |items| == 0 then []
    else
      var n := |items| - 1;
      Added(items[..n], existing) + if Has(existing, items[n].name) then [] else [items[n]]
  }

  function Override<T>(existing: seq<Item<T>>, overrides: seq<Item<T>>): seq<Item<T>> {
    Replaced(existing, overrides) + Added(overrides, existing)
  }

  /* ---- The code ---- */

  method ApplyOverrides<T>(existing: seq<Item<T>>, overrides: seq<Item<T>>) returns (result: seq<Item<T>>)
    ensures result == Override(existing, overrides)
  {
    hide Has, Last, Replaced, Added;
    if |overrides| == 0 {
      NothingToOverride(existing);
      return existing;
    }
    result := [];
    NoItems(existing, overrides);
    var overrideMap: map<string, Item<T>> := map[];
    for i := 0 to |overrides|
      invariant forall name :: name in overrideMap <==> Has(overrides[..i], name)
      invariant forall name | name in overrideMap :: overrideMap[name] == Last(overrides[..i], name)
    {
      HasAppend(overrides[..i], overrides[i]);
      assert overrides[..i + 1] == overrides[..i] + [overrides[i]];
      overrideMap := overrideMap[overrides[i].name := overrides[i]];
    }
    assert overrides[..|overrides|] == overrides;
    for i := 0 to |existing|
      invariant forall name :: name in overrideMap <==> Has(overrides, name) && !Has(existing[..i], name)
      invariant forall name | name in overrideMap :: overrideMap[name] == Last(overrides, name)
      invariant result == Replaced(existing[..i], overrides)
    {
      HasAppend(existing[..i], existing[i]);
      ReplacedAppend(existing[..i], existing[i], overrides);
      assert existing[..i + 1] == existing[..i] + [existing[i]];
      if existing[i].name in overrideMap {
        result := result + [overrideMap[existing[i].name]];
        overrideMap := overrideMap - {existing[i].name};
      } else {
        result := result + [existing[i]];
      }
    }
    assert existing[..|existing|] == existing;
    for i := 0 to |overrides|
      invariant result == Replaced(existing, overrides) + Added(overrides[..i], existing)
    {
      HasEach(overrides, i);
      AddedAppend(overrides[..i], overrides[i], existing);
      assert overrides[..i + 1] == overrides[..i] + [overrides[i]];
      if overrides[i].name in overrideMap {
        result := result + [overrides[i]];
      }
    }
  }

  lemma NoItems<T>(existing: seq<Item<T>>, overrides: seq<Item<T>>)
    ensures forall name :: !Has<T>([], name)
    ensures Replaced([], overrides) == [] && Added([], existing) == []
  {
  }

  lemma HasEach<T>(items: seq<Item<T>>, k: nat)
    requires k < |items|
    ensures Has(items, items[k].name)
  {
  }

  lemma AddedAppend<T>(items: seq<Item<T>>, item: Item<T>, existing: seq<Item<T>>)
    ensures Added(items + [item], existing) == Added(items, existing) + if Has(existing, item.name) then [] else [item]
  {
    assert (items + [item])[..|items|] == items;
  }

  lemma HasAppend<T>(items: seq<Item<T>>, item: Item<T>)
    ensures forall name :: Has(items + [item], name) <==> Has(items, name) || name == item.name
    ensures forall name | Has(items + [item], name) ::
      Last(items + [item], name) == if name == item.name then item else Last(items, name)
  {
    var all := items + [item];
    assert all[..|items|] == items;
    forall name ensures Has(all, name) <==> Has(items, name) || name == item.name {
      if Has(items, name) {
        var k :| 0 <= k < |items| && items[k].name == name;
        assert all[k].name == name;
      }
      if name == item.name {
        assert all[|items|].name == name;
      }
    }
  }

  lemma ReplacedAppend<T>(items: seq<Item<T>>, item: Item<T>, overrides: seq<Item<T>>)
    ensures Replaced(items + [item], overrides)
         == Replaced(items, overrides)
            + [if Has(overrides, item.name) && !Has(items, item.name) then Last(overrides, item.name) else item]
  {
    var all := items + [item];
    assert all[..|items|] == items;
    assert forall k | 0 <= k < |items| :: all[..k] == items[..k];
  }

  /* ---- Laws ---- */

  predicate Distinct<T>(items: seq<Item<T>>) {
    forall j, k | 0 <= j < k < |items| :: items[j].name != items[k].name
  }

  lemma HasConcat<T>(a: seq<Item<T>>, b: seq<Item<T>>)
    ensures forall name :: Has(a + b, name) <==> Has(a, name) || Has(b, name)
  {
    forall name ensures Has(a + b, name) <==> Has(a, name) || Has(b, name) {
      if Has(a, name) {
        var k :| 0 <= k < |a| && a[k].name == name;
        assert (a + b)[k].name == name;
      }
      if Has(b, name) {
        var k :| 0 <= k < |b| && b[k].name == name;
        assert (a + b)[|a| + k].name == name;
      }
    }
  }

  lemma HasReplaced<T>(items: seq<Item<T>>, overrides: seq<Item<T>>)
    ensures forall name :: Has(Replaced(items, overrides), name) <==> Has(items, name)
  {
    forall name | Has(items, name) ensures Has(Replaced(items, overrides), name) {
      var k :| 0 <= k < |items| && items[k].name == name;
      assert Replaced(items, overrides)[k].name == name;
    }
  }

  lemma {:induction false} AddedMembers<T>(items: seq<Item<T>>, existing: seq<Item<T>>)
    ensures forall item | item in Added(items, existing) :: item in items && !Has(existing, item.name)
    ensures forall item | item in items && !Has(existing, item.name) :: item in Added(items, existing)
  {
    if |items| > 0 {
      var n := |items| - 1;
      AddedMembers(items[..n], existing);
      assert items == items[..n] + [items[n]];
    }
  }

  lemma HasAdded<T>(items: seq<Item<T>>, existing: seq<Item<T>>)
    ensures forall name :: Has(Added(items, existing), name) <==> Has(items, name) && !Has(existing, name)
  {
    AddedMembers(items, existing);
    forall name ensures Has(Added(items, existing), name) <==> Has(items, name) && !Has(existing, name) {
      if Has(Added(items, existing), name) {
        var k :| 0 <= k < |Added(items, existing)| && Added(items, existing)[k].name == name;
        assert Added(items, existing)[k] in items;
      }
      if Has(items, name) && !Has(existing, name) {
        var k :| 0 <= k < |items| && items[k].name == name;
        assert items[k] in Added(items, existing);
      }
    }
  }

  // The names of the result are those of both lists.
  lemma NamesOfOverride<T>(existing: seq<Item<T>>, overrides: seq<Item<T>>)
    ensures forall name :: Has(Override(existing, overrides), name) <==> Has(existing, name) || Has(overrides, name)
  {
    HasReplaced(existing, overrides);
    HasAdded(overrides, existing);
    HasConcat(Replaced(existing, overrides), Added(overrides, existing));
  }

  lemma {:induction false} AddedDistinct<T>(items: seq<Item<T>>, existing: seq<Item<T>>)
    requires Distinct(items)
    ensures Distinct(Added(items, existing))
  {
    if |items| > 0 {
      var n := |items| - 1;
      AddedDistinct(items[..n], existing);
      AddedMembers(items[..n], existing);
      var rest := Added(items[..n], existing);
      forall j | 0 <= j < |rest| ensures rest[j].name != items[n].name {
        assert rest[j] in items[..n];
      }
    }
  }

  lemma OverrideKeepsNamesDistinct<T>(existing: seq<Item<T>>, overrides: seq<Item<T>>)
    requires Distinct(existing) && Distinct(overrides)
    ensures Distinct(Override(existing, overrides))
  {
    var replaced, added := Replaced(existing, overrides), Added(overrides, existing);
    AddedDistinct(overrides, existing);
    AddedMembers(overrides, existing);
    HasReplaced(existing, overrides);
    forall j, k | 0 <= j < |replaced| && 0 <= k < |added| ensures replaced[j].name != added[k].name {
      assert added[k] in added;
      HasEach(replaced, j);
    }
  }

  // The empty list is the identity on either side.
  lemma {:induction false} NothingToOverride<T>(items: seq<Item<T>>)
    ensures Override(items, []) == items && Override([], items) == items
  {
    assert Replaced(items, []) == items;
    if |items| > 0 {
      var n := |items| - 1;
      NothingToOverride(items[..n]);
      assert Replaced(items[..n], []) == items[..n];
    }
  }

  lemma ReplacedConcat<T>(a: seq<Item<T>>, b: seq<Item<T>>, overrides: seq<Item<T>>)
    requires forall item | item in b :: !Has(a, item.name)
    ensures Replaced(a + b, overrides) == Replaced(a, overrides) + Replaced(b, overrides)
  {
    forall k | 0 <= k < |a| + |b|
      ensures Overridden(a + b, overrides, k) <==>
        if k < |a| then Overridden(a, overrides, k) else Overridden(b, overrides, k - |a|)
    {
      if k < |a| {
        assert (a + b)[..k] == a[..k];
      } else {
        assert (a + b)[..k] == a + b[..k - |a|];
        HasConcat(a, b[..k - |a|]);
        assert b[k - |a|] in b;
      }
    }
  }

  lemma {:induction false} AddedConcat<T>(a: seq<Item<T>>, b: seq<Item<T>>, existing: seq<Item<T>>)
    ensures Added(a + b, existing) == Added(a, existing) + Added(b, existing)
  {
    if |b| == 0 {
      assert a + b == a;
    } else {
      var n := |b| - 1;
      assert (a + b)[..|a + b| - 1] == a + b[..n];
      AddedConcat(a, b[..n], existing);
    }
  }

  // What is added depends only on the names that are there.
  lemma {:induction false} AddedByName<T>(items: seq<Item<T>>, a: seq<Item<T>>, b: seq<Item<T>>)
    requires forall name :: Has(a, name) <==> Has(b, name)
    ensures Added(items, a) == Added(items, b)
  {
    if |items| > 0 {
      AddedByName(items[..|items| - 1], a, b);
    }
  }

  lemma {:induction false} AddedTwice<T>(items: seq<Item<T>>, a: seq<Item<T>>, b: seq<Item<T>>)
    ensures Added(Added(items, a), b) == Added(items, a + b)
  {
    if |items| > 0 {
      var n := |items| - 1;
      AddedTwice(items[..n], a, b);
      HasConcat(a, b);
      var last := if Has(a, items[n].name) then [] else [items[n]];
      AddedConcat(Added(items[..n], a), last, b);
      if |last| > 0 {
        assert last[..0] == [];
      }
    }
  }

  // Overriding and leaving out names can be exchanged.
  lemma {:induction false} AddedReplaced<T>(items: seq<Item<T>>, overrides: seq<Item<T>>, existing: seq<Item<T>>)
    ensures Added(Replaced(items, overrides), existing) == Replaced(Added(items, existing), overrides)
  {
    hide Has, Last, Added, Replaced;
    if |items| == 0 {
      NoItems(existing, overrides);
    } else {
      var n := |items| - 1;
      var item, rest := items[n], items[..n];
      assert items == rest + [item];
      AddedReplaced(rest, overrides, existing);
      ReplacedAppend(rest, item, overrides);
      var over := if Has(overrides, item.name) && !Has(rest, item.name) then Last(overrides, item.name) else item;
      AddedAppend(Replaced(rest, overrides), over, existing);
      AddedAppend(rest, item, existing);
      if Has(existing, item.name) {
        assert Added(items, existing) == Added(rest, existing);
        assert Added(Replaced(items, overrides), existing) == Added(Replaced(rest, overrides), existing);
      } else {
        HasAdded(rest, existing);
        ReplacedAppend(Added(rest, existing), item, overrides);
      }
    }
  }

  lemma {:induction false} LastConcat<T>(a: seq<Item<T>>, b: seq<Item<T>>, name: string)
    requires Has(a + b, name)
    ensures if Has(b, name) then Last(a + b, name) == Last(b, name)
            else Has(a, name) && Last(a + b, name) == Last(a, name)
  {
    HasConcat(a, b);
    if |b| == 0 {
      assert a + b == a;
    } else {
      var n := |b| - 1;
      assert (a + b)[..|a + b| - 1] == a + b[..n];
      HasAppend(b[..n], b[n]);
      assert b == b[..n] + [b[n]];
      if b[n].name != name {
        HasConcat(a, b[..n]);
        LastConcat(a, b[..n], name);
      }
    }
  }

  lemma {:induction false} LastOfAdded<T>(items: seq<Item<T>>, existing: seq<Item<T>>, name: string)
    requires Has(items, name) && !Has(existing, name)
    ensures Has(Added(items, existing), name) && Last(Added(items, existing), name) == Last(items, name)
  {
    hide Added;
    var n := |items| - 1;
    var item, rest := items[n], items[..n];
    assert items == rest + [item];
    hide Has, Last;
    HasAdded(items, existing);
    AddedAppend(rest, item, existing);
    HasAppend(rest, item);
    if item.name == name {
      HasAppend(Added(rest, existing), item);
    } else {
      LastOfAdded(rest, existing, name);
      if !Has(existing, item.name) {
        HasAppend(Added(rest, existing), item);
      } else {
        assert Added(items, existing) == Added(rest, existing);
      }
    }
  }

  // In a list without duplicates, the item of a name is the only one.
  lemma LastIsOnly<T>(items: seq<Item<T>>, k: nat)
    requires Distinct(items) && k < |items|
    ensures Has(items, items[k].name) && Last(items, items[k].name) == items[k]
  {
    assert Last(items, items[k].name) in items;
  }

  // The name occurs more than once.
  ghost predicate Repeated<T>(items: seq<Item<T>>, name: string) {
    exists j, k :: 0 <= j < k < |items| && items[j].name == name && items[k].name == name
  }

  lemma {:induction false} LastIndex<T>(items: seq<Item<T>>, name: string) returns (k: nat)
    requires Has(items, name)
    ensures k < |items| && items[k].name == name && Last(items, name) == items[k]
    ensures forall j | k < j < |items| :: items[j].name != name
    ensures Has(items[..k], name) <==> Repeated(items, name)
  {
    var n := |items| - 1;
    if items[n].name == name {
      k := n;
    } else {
      assert items == items[..n] + [items[n]];
      HasAppend(items[..n], items[n]);
      k := LastIndex(items[..n], name);
      assert items[..n][..k] == items[..k];
    }
    if Has(items[..k], name) {
      var j :| 0 <= j < k && items[..k][j].name == name;
      assert items[j].name == name;
    }
  }

  lemma {:induction false} FirstIndex<T>(items: seq<Item<T>>, name: string) returns (k: nat)
    requires Has(items, name)
    ensures k < |items| && items[k].name == name && !Has(items[..k], name)
  {
    var n := |items| - 1;
    assert items == items[..n] + [items[n]];
    HasAppend(items[..n], items[n]);
    if Has(items[..n], name) {
      k := FirstIndex(items[..n], name);
      assert items[..n][..k] == items[..k];
    } else {
      k := n;
    }
  }

  // Replacing in place touches the first item of a name, which is the last
  // one only when there is no other.
  lemma LastOfReplaced<T>(items: seq<Item<T>>, overrides: seq<Item<T>>, name: string)
    requires Has(items, name)
    ensures var replaced := Replaced(items, overrides);
      && Has(replaced, name)
      && Last(replaced, name) ==
           if Has(overrides, name) && !Repeated(items, name) then Last(overrides, name) else Last(items, name)
  {
    HasReplaced(items, overrides);
    var replaced := Replaced(items, overrides);
    var k := LastIndex(items, name);
    var l := LastIndex(replaced, name);
    assert k == l;
  }

  // The override that wins after two lists were combined.
  lemma LastOfOverride<T>(first: seq<Item<T>>, second: seq<Item<T>>, name: string)
    requires Has(first, name) || Has(second, name)
    ensures var combined := Override(first, second);
      && Has(combined, name)
      && Last(combined, name) ==
           if Has(second, name) && !Repeated(first, name) then Last(second, name) else Last(first, name)
  {
    hide Replaced, Added, Has, Last, Repeated;
    NamesOfOverride(first, second);
    var replaced, added := Replaced(first, second), Added(second, first);
    HasAdded(second, first);
    HasReplaced(first, second);
    LastConcat(replaced, added, name);
    if Has(first, name) {
      LastOfReplaced(first, second, name);
    } else {
      LastOfAdded(second, first, name);
      NotRepeated(first, name);
    }
  }

  lemma NotRepeated<T>(items: seq<Item<T>>, name: string)
    requires !Has(items, name)
    ensures !Repeated(items, name)
  {
  }

  // The second list comes to bear on every name: where the first list repeats
  // the name of an existing item, its last word is that of the second list.
  ghost predicate Associable<T>(existing: seq<Item<T>>, first: seq<Item<T>>, second: seq<Item<T>>) {
    forall name | Has(existing, name) && Has(second, name) && Repeated(first, name) ::
      Has(first, name) && Last(first, name) == Last(second, name)
  }

  lemma RepeatedHas<T>(items: seq<Item<T>>, name: string)
    ensures Repeated(items, name) ==> Has(items, name)
  {
  }

  // One position after both ways of overriding.
  lemma ReplacedTwiceAt<T>(existing: seq<Item<T>>, first: seq<Item<T>>, second: seq<Item<T>>, k: nat)
    requires k < |existing|
    ensures var name := existing[k].name;
      var inTurn := Replaced(Replaced(existing, first), second)[k];
      var together := Replaced(existing, Override(first, second))[k];
      if Has(existing[..k], name) || !Has(second, name) || !Repeated(first, name) then inTurn == together
      else Has(first, name) && inTurn == Last(second, name) && together == Last(first, name)
  {
    var once, name := Replaced(existing, first), existing[k].name;
    NamesOfOverride(first, second);
    SameNamesBefore(existing, once, k, name);
    RepeatedHas(first, name);
    if Has(first, name) || Has(second, name) {
      LastOfOverride(first, second, name);
    }
    hide Has, Last, Repeated, Override;
  }

  lemma ReplacedTwice<T>(existing: seq<Item<T>>, first: seq<Item<T>>, second: seq<Item<T>>)
    ensures Replaced(Replaced(existing, first), second) == Replaced(existing, Override(first, second))
       <==> Associable(existing, first, second)
  {
    hide Replaced, Last, Repeated, Override;
    var inTurn, together := Replaced(Replaced(existing, first), second), Replaced(existing, Override(first, second));
    if Associable(existing, first, second) {
      forall k | 0 <= k < |existing| ensures inTurn[k] == together[k] {
        HasEach(existing, k);
        ReplacedTwiceAt(existing, first, second, k);
      }
    }
    if inTurn == together {
      forall name | Has(existing, name) && Has(second, name) && Repeated(first, name)
        ensures Has(first, name) && Last(first, name) == Last(second, name)
      {
        var k := FirstIndex(existing, name);
        ReplacedTwiceAt(existing, first, second, k);
      }
    }
  }

  lemma SameNamesBefore<T>(a: seq<Item<T>>, b: seq<Item<T>>, k: nat, name: string)
    requires |a| == |b| && k < |a| && forall i | 0 <= i < |a| :: a[i].name == b[i].name
    ensures Has(a[..k], name) <==> Has(b[..k], name)
  {
    if Has(a[..k], name) {
      var i :| 0 <= i < k && a[i].name == name;
      assert b[..k][i].name == name;
    }
    if Has(b[..k], name) {
      var i :| 0 <= i < k && b[i].name == name;
      assert a[..k][i].name == name;
    }
  }

  // Applying two lists of overrides one after the other is applying the first
  // overridden by the second, exactly when the second list has the last word
  // on every existing item; in particular when the first has distinct names.
  lemma OverrideIsAssociative<T>(existing: seq<Item<T>>, first: seq<Item<T>>, second: seq<Item<T>>)
    ensures Override(Override(existing, first), second) == Override(existing, Override(first, second))
       <==> Associable(existing, first, second)
    ensures Distinct(first) ==> Associable(existing, first, second)
  {
    hide Replaced, Added, Override, Associable, Distinct;
    InTurn(existing, first, second);
    Together(existing, first, second);
    ReplacedTwice(existing, first, second);
    SameEnd(Replaced(Replaced(existing, first), second), Replaced(existing, Override(first, second)),
            Added(Override(first, second), existing));
    if Distinct(first) {
      DistinctIsAssociable(existing, first, second);
    }
  }

  lemma Together<T>(existing: seq<Item<T>>, first: seq<Item<T>>, second: seq<Item<T>>)
    ensures Override(existing, Override(first, second))
         == Replaced(existing, Override(first, second)) + Added(Override(first, second), existing)
  {
  }

  lemma InTurn<T>(existing: seq<Item<T>>, first: seq<Item<T>>, second: seq<Item<T>>)
    ensures Override(Override(existing, first), second)
         == Replaced(Replaced(existing, first), second) + Added(Override(first, second), existing)
  {
    hide Replaced, Added, Has;
    var replaced, added := Replaced(existing, first), Added(first, existing);
    HasReplaced(existing, first);
    AddedMembers(first, existing);
    ReplacedConcat(replaced, added, second);
    AddedReplaced(first, second, existing);
    AddedConcat(Replaced(first, second), Added(second, first), existing);
    AddedTwice(second, first, existing);
    HasConcat(first, existing);
    NamesOfOverride(existing, first);
    AddedByName(second, first + existing, Override(existing, first));
  }

  lemma SameEnd<T>(x: seq<T>, y: seq<T>, end: seq<T>)
    requires |x| == |y|
    ensures x + end == y + end <==> x == y
  {
    assert x == (x + end)[..|x|] && y == (y + end)[..|y|];
  }

  lemma DistinctIsAssociable<T>(existing: seq<Item<T>>, first: seq<Item<T>>, second: seq<Item<T>>)
    requires Distinct(first)
    ensures Associable(existing, first, second)
  {
    assert forall name :: !Repeated(first, name);
  }

  // Where it fails: with two different overrides of one name in the first
  // list, the last one wins when it is applied, but only the first one is
  // overridden. The two ways give [d] and [c].
  lemma DuplicatesBreakAssociativity<T>(a: Item<T>, b: Item<T>, c: Item<T>, d: Item<T>)
    requires a.name == b.name == c.name == d.name && c != d
    ensures Override(Override([a], [b, c]), [d]) == [d]
    ensures Override([a], Override([b, c], [d])) == [c]
    ensures Override(Override([a], [b, c]), [d]) != Override([a], Override([b, c], [d]))
  {
    OverrideOneName([a], [b, c]);
    OverrideOneName([c], [d]);
    OverrideOneName([b, c], [d]);
    OverrideOneName([a], [d, c]);
    hide Override;
    assert Override([a], [b, c]) == [c];
    assert Override([b, c], [d]) == [d, c];
    assert [c][0] != [d][0];
  }

  lemma OverrideOneName<T>(items: seq<Item<T>>, overrides: seq<Item<T>>)
    requires |items| > 0 && |overrides| > 0
    requires forall k | 0 <= k < |items| :: items[k].name == items[0].name
    requires forall k | 0 <= k < |overrides| :: overrides[k].name == items[0].name
    ensures Override(items, overrides) == [overrides[|overrides| - 1]] + items[1..]
  {
    HasEach(items, 0);
    assert forall item | item in overrides :: Has(items, item.name);
    assert Added(overrides, items) == [] by {
      NothingAdded(overrides, items);
    }
    HasEach(overrides, |overrides| - 1);
    assert Overridden(items, overrides, 0);
    forall k | 1 <= k < |items| ensures !Overridden(items, overrides, k) {
      HasEach(items[..k], 0);
    }
  }

  lemma NothingAdded<T>(items: seq<Item<T>>, existing: seq<Item<T>>)
    requires forall item | item in items :: Has(existing, item.name)
    ensures Added(items, existing) == []
  {
    AddedMembers(items, existing);
    assert forall item :: item !in Added(items, existing);
  }

  /* ---- Idempotence ---- */

  // Overrides of a new name do not contradict each other: the first of them
  // is what the last one says.
  ghost predicate Consistent<T>(existing: seq<Item<T>>, overrides: seq<Item<T>>) {
    forall k | 0 <= k < |overrides| && !Has(existing, overrides[k].name) ::
      Overridden(overrides, overrides, k) ==> overrides[k] == Last(overrides, overrides[k].name)
  }

  // Overriding twice with the same list is overriding once, exactly when the
  // overrides of each new name are consistent; in particular when the names
  // are distinct.
  lemma OverrideIsIdempotent<T>(existing: seq<Item<T>>, overrides: seq<Item<T>>)
    ensures Override(Override(existing, overrides), overrides) == Override(existing, overrides)
       <==> Consistent(existing, overrides)
    ensures Distinct(overrides) ==> Consistent(existing, overrides)
  {
    hide Replaced, Added, Has, Last, Consistent;
    var replaced, added := Replaced(existing, overrides), Added(overrides, existing);
    HasReplaced(existing, overrides);
    AddedMembers(overrides, existing);
    ReplacedConcat(replaced, added, overrides);
    NothingMoreAdded(existing, overrides);
    ReplacedSettles(existing, overrides);
    ConsistentMeansSettled(existing, overrides);
    assert Override(Override(existing, overrides), overrides) == replaced + Replaced(added, overrides);
    assert replaced + Replaced(added, overrides) == replaced + added <==> Replaced(added, overrides) == added by {
      SameStart(replaced, Replaced(added, overrides), added);
    }
    if Distinct(overrides) {
      DistinctIsConsistent(existing, overrides);
    }
  }

  lemma DistinctIsConsistent<T>(existing: seq<Item<T>>, overrides: seq<Item<T>>)
    requires Distinct(overrides)
    ensures Consistent(existing, overrides)
  {
    forall k | 0 <= k < |overrides|
      ensures Has(overrides, overrides[k].name) && overrides[k] == Last(overrides, overrides[k].name)
    {
      LastIsOnly(overrides, k);
    }
  }

  lemma NothingMoreAdded<T>(existing: seq<Item<T>>, overrides: seq<Item<T>>)
    ensures Added(overrides, Override(existing, overrides)) == []
  {
    NamesOfOverride(existing, overrides);
    forall item | item in overrides ensures Has(Override(existing, overrides), item.name) {
      var k :| 0 <= k < |overrides| && overrides[k] == item;
      HasEach(overrides, k);
    }
    NothingAdded(overrides, Override(existing, overrides));
  }

  lemma SameStart<T>(x: seq<T>, y: seq<T>, z: seq<T>)
    ensures x + y == x + z <==> y == z
  {
    assert y == (x + y)[|x|..] && z == (x + z)[|x|..];
  }

  lemma ConsistentMeansSettled<T>(existing: seq<Item<T>>, overrides: seq<Item<T>>)
    ensures Replaced(Added(overrides, existing), overrides) == Added(overrides, existing)
       <==> Consistent(existing, overrides)
  {
    AddedReplaced(overrides, overrides, existing);
    AddedEqual(Replaced(overrides, overrides), overrides, existing);
  }

  lemma ReplacedSettles<T>(items: seq<Item<T>>, overrides: seq<Item<T>>)
    ensures Replaced(Replaced(items, overrides), overrides) == Replaced(items, overrides)
  {
    forall k | 0 <= k < |items|
      ensures Overridden(Replaced(items, overrides), overrides, k) <==> Overridden(items, overrides, k)
    {
      SameNamesBefore(items, Replaced(items, overrides), k, items[k].name);
    }
  }

  // Lists with the same names add the same exactly when they agree on the
  // new ones.
  lemma {:induction false} AddedEqual<T>(a: seq<Item<T>>, b: seq<Item<T>>, existing: seq<Item<T>>)
    requires |a| == |b| && forall k | 0 <= k < |a| :: a[k].name == b[k].name
    ensures |Added(a, existing)| == |Added(b, existing)|
    ensures Added(a, existing) == Added(b, existing) <==>
      forall k | 0 <= k < |a| && !Has(existing, a[k].name) :: a[k] == b[k]
  {
    hide Has, Added;
    if |a| == 0 {
      assert a == b;
    } else {
      var n := |a| - 1;
      assert a == a[..n] + [a[n]] && b == b[..n] + [b[n]];
      AddedEqual(a[..n], b[..n], existing);
      var x, y := Added(a[..n], existing), Added(b[..n], existing);
      AddedAppend(a[..n], a[n], existing);
      AddedAppend(b[..n], b[n], existing);
      assert forall k | 0 <= k < n :: a[..n][k] == a[k] && b[..n][k] == b[k];
      if !Has(existing, a[n].name) {
        SameEnds(x, a[n], y, b[n]);
        assert Added(a, existing) == Added(b, existing) <==> x == y && a[n] == b[n];
      } else {
        assert Added(a, existing) == x && Added(b, existing) == y;
      }
    }
  }

  lemma SameEnds<T>(x: seq<T>, a: T, y: seq<T>, b: T)
    requires |x| == |y|
    ensures x + [a] == y + [b] <==> x == y && a == b
  {
    if x + [a] == y + [b] {
      assert x == (x + [a])[..|x|] && y == (y + [b])[..|y|];
      assert (x + [a])[|x|] == (y + [b])[|y|];
    }
  }
}
