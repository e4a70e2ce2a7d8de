/** Assembling the sidebar (apps/web/src/shell/compose.ts): role filters, then a sort by weight with
    the declaration order as tie-breaker. */
module Navigation {
  import opened Common

  const DEFAULT_NAV_ORDER: real := 100.0

  datatype NavItem = NavItem(path: string, caption: string, order: Option<real>, roles: Option<seq<string>>)

  datatype Feature = Feature(id: string, nav: Option<seq<NavItem>>, roles: Option<seq<string>>)

  predicate IsRoleAllowed(userRole: string, allowed: Option<seq<string>>) {
    allowed == None || allowed.value == [] || userRole in allowed.value
  }

  /** `!userRole || isRoleAllowed(userRole, roles)`: an absent or empty role filters nothing. */
  predicate Passes(userRole: Option<string>, roles: Option<seq<string>>) {
    userRole == None || userRole.value == "" || IsRoleAllowed(userRole.value, roles)
  }

  function Weight(item: NavItem): real {
    if item.order == None then DEFAULT_NAV_ORDER else item.order.value
  }

  function NavOf(f: Feature): seq<NavItem> {
    if f.nav == None then [] else f.nav.value
  }

  // -------- the chain --------

  function AllowedFeatures(features: seq<Feature>, userRole: Option<string>): seq<Feature> {
    if features == [] then []
    else
      var rest := AllowedFeatures(features[1..], userRole);
      if Passes(userRole, features[0].roles) then [features[0]] + rest else rest
  }

  function FlatNav(features: seq<Feature>): seq<NavItem> {
    if features == [] then [] else NavOf(features[0]) + FlatNav(features[1..])
  }

  function AllowedItems(items: seq<NavItem>, userRole: Option<string>): seq<NavItem> {
    if items == [] then []
    else
      var rest := AllowedItems(items[1..], userRole);
      if Passes(userRole, items[0].roles) then [items[0]] + rest else rest
  }

  datatype Indexed = Indexed(item: NavItem, index: nat)

  function WithIndex(items: seq<NavItem>, first: nat): seq<Indexed> {
    if items == [] then [] else [Indexed(items[0], first)] + WithIndex(items[1..], first + 1)
  }

  /** The comparator: negative when `a` sorts before `b`. */
  function Compare(a: Indexed, b: Indexed): real {
    var byOrder := Weight(a.item) - Weight(b.item);
    if byOrder != 0.0 then byOrder else (a.index as real) - (b.index as real)
  }

  function InsertIndexed(a: Indexed, sorted: seq<Indexed>): seq<Indexed> {
    if sorted == [] || Compare(a, sorted[0]) < 0.0 then [a] + sorted
    else [sorted[0]] + InsertIndexed(a, sorted[1..])
  }

  function SortIndexed(entries: seq<Indexed>): seq<Indexed> {
    if entries == [] then [] else InsertIndexed(entries[0], SortIndexed(entries[1..]))
  }

  function ItemsOf(entries: seq<Indexed>): seq<NavItem> {
    if entries == [] then [] else [entries[0].item] + ItemsOf(entries[1..])
  }

  function CollectNav(features: seq<Feature>, userRole: Option<string>): seq<NavItem> {
    ItemsOf(SortIndexed(WithIndex(AllowedItems(FlatNav(AllowedFeatures(features, userRole)), userRole), 0)))
  }

  // -------- a stable sort, tags and all --------

  /** An item together with the roles of the feature that declares it. */
  datatype Tagged = Tagged(item: NavItem, featureRoles: Option<seq<string>>)

  function Tag(items: seq<NavItem>, roles: Option<seq<string>>): seq<Tagged> {
    if items == [] then [] else [Tagged(items[0], roles)] + Tag(items[1..], roles)
  }

  /** Every declared item in declaration order. */
  function Declared(features: seq<Feature>): seq<Tagged> {
    if features == [] then [] else Tag(NavOf(features[0]), features[0].roles) + Declared(features[1..])
  }

  function Untag(tagged: seq<Tagged>): seq<NavItem> {
    if tagged == [] then [] else [tagged[0].item] + Untag(tagged[1..])
  }

  predicate Visible(userRole: Option<string>, t: Tagged) {
    Passes(userRole, t.featureRoles) && Passes(userRole, t.item.roles)
  }

  /** The subsequence of the entries that satisfy `p`. */
  function Keep(p: Tagged -> bool, tagged: seq<Tagged>): seq<Tagged> {
    if tagged == [] then []
    else if p(tagged[0]) then [tagged[0]] + Keep(p, tagged[1..]) else Keep(p, tagged[1..])
  }

  /** `t` goes before the first entry that does not weigh less. */
  function Insert(t: Tagged, sorted: seq<Tagged>): seq<Tagged> {
    if sorted == [] || Weight(t.item) <= Weight(sorted[0].item) then [t] + sorted
    else [sorted[0]] + Insert(t, sorted[1..])
  }

  /** Sorting by weight alone, entries of equal weight staying in their order. */
  function StableSort(tagged: seq<Tagged>): seq<Tagged> {
    if tagged == [] then [] else Insert(tagged[0], StableSort(tagged[1..]))
  }

  /** No entry weighs less than one before it. */
  predicate Sorted(tagged: seq<Tagged>) {
    tagged == [] || ((forall t <- tagged[1..] :: Weight(tagged[0].item) <= Weight(t.item)) && Sorted(tagged[1..]))
  }

  lemma {:induction false} InsertMembers(t: Tagged, sorted: seq<Tagged>)
    ensures multiset(Insert(t, sorted)) == multiset(sorted) + multiset{t}
    decreases |sorted|
  {
    if sorted != [] && Weight(t.item) > Weight(sorted[0].item) {
      InsertMembers(t, sorted[1..]);
      assert sorted == [sorted[0]] + sorted[1..];
    }
  }

  lemma {:induction false} InsertSorts(t: Tagged, sorted: seq<Tagged>)
    requires Sorted(sorted)
    ensures Sorted(Insert(t, sorted))
    decreases |sorted|
  {
    var inserted := Insert(t, sorted);
    if sorted != [] && Weight(t.item) > Weight(sorted[0].item) {
      var rest := Insert(t, sorted[1..]);
      InsertSorts(t, sorted[1..]);
      InsertMembers(t, sorted[1..]);
      forall x <- rest ensures Weight(sorted[0].item) <= Weight(x.item) {
        assert x in multiset(rest);
        assert x == t || x in sorted[1..];
      }
      assert inserted[1..] == rest;
    } else {
      assert inserted[1..] == sorted;
      forall x <- sorted ensures Weight(t.item) <= Weight(x.item) {
        assert x == sorted[0] || x in sorted[1..];
      }
    }
  }

  /** The stable sort sorts by weight, and loses and adds nothing. */
  lemma {:induction false} StableSortSorts(tagged: seq<Tagged>)
    ensures Sorted(StableSort(tagged)) && multiset(StableSort(tagged)) == multiset(tagged)
    decreases |tagged|
  {
    if tagged != [] {
      StableSortSorts(tagged[1..]);
      InsertSorts(tagged[0], StableSort(tagged[1..]));
      InsertMembers(tagged[0], StableSort(tagged[1..]));
      assert tagged == [tagged[0]] + tagged[1..];
    }
  }

  lemma {:induction false} KeepMembers(p: Tagged -> bool, tagged: seq<Tagged>)
    ensures forall t <- Keep(p, tagged) :: t in tagged && p(t)
    decreases |tagged|
  {
    if tagged != [] {
      KeepMembers(p, tagged[1..]);
    }
  }

  lemma {:induction false} KeepInsert(p: Tagged -> bool, t: Tagged, sorted: seq<Tagged>)
    requires Sorted(sorted)
    ensures Keep(p, Insert(t, sorted)) == if p(t) then Insert(t, Keep(p, sorted)) else Keep(p, sorted)
    decreases |sorted|
  {
    var inserted := Insert(t, sorted);
    if sorted == [] || Weight(t.item) <= Weight(sorted[0].item) {
      assert inserted[1..] == sorted;
      KeepMembers(p, sorted);
      var kept := Keep(p, sorted);
      if kept != [] {
        assert kept[0] in sorted;
        assert kept[0] == sorted[0] || kept[0] in sorted[1..];
      }
    } else {
      assert inserted[1..] == Insert(t, sorted[1..]);
      KeepInsert(p, t, sorted[1..]);
      if p(sorted[0]) {
        assert Keep(p, sorted)[1..] == Keep(p, sorted[1..]);
      }
    }
  }

  /** Filtering commutes with the stable sort, whatever the filter. */
  lemma {:induction false} KeepCommutes(p: Tagged -> bool, tagged: seq<Tagged>)
    ensures Keep(p, StableSort(tagged)) == StableSort(Keep(p, tagged))
    decreases |tagged|
  {
    if tagged != [] {
      KeepCommutes(p, tagged[1..]);
      StableSortSorts(tagged[1..]);
      KeepInsert(p, tagged[0], StableSort(tagged[1..]));
      if p(tagged[0]) {
        assert Keep(p, tagged)[1..] == Keep(p, tagged[1..]);
      }
    }
  }

  lemma {:induction false} EqualWeightsStay(tagged: seq<Tagged>, w: real)
    requires forall t <- tagged :: Weight(t.item) == w
    ensures StableSort(tagged) == tagged
    decreases |tagged|
  {
    if tagged != [] {
      EqualWeightsStay(tagged[1..], w);
      assert tagged == [tagged[0]] + tagged[1..];
    }
  }

  /** Stability: the entries of any one weight come out in the order they went in. */
  lemma SortIsStable(tagged: seq<Tagged>, w: real)
    ensures var p := (t: Tagged) => Weight(t.item) == w;
            Keep(p, StableSort(tagged)) == Keep(p, tagged)
  {
    var p := (t: Tagged) => Weight(t.item) == w;
    KeepCommutes(p, tagged);
    KeepMembers(p, tagged);
    EqualWeightsStay(Keep(p, tagged), w);
  }

  // -------- the comparator sort is the stable sort --------

  predicate IndexedFrom(entries: seq<Indexed>, first: nat) {
    forall e <- entries :: e.index >= first
  }

  /** Entries over the same items, in the same order. */
  predicate Mirrors(entries: seq<Indexed>, tagged: seq<Tagged>) {
    |entries| == |tagged| && forall i :: 0 <= i < |entries| ==> entries[i].item == tagged[i].item
  }

  lemma {:induction false} InsertAgrees(a: Indexed, entries: seq<Indexed>, t: Tagged, sorted: seq<Tagged>)
    requires Mirrors(entries, sorted) && a.item == t.item
    requires IndexedFrom(entries, a.index + 1)
    ensures Mirrors(InsertIndexed(a, entries), Insert(t, sorted))
    ensures IndexedFrom(InsertIndexed(a, entries), a.index)
    decreases |entries|
  {
    if entries != [] {
      assert entries[0] in entries;
      if Weight(t.item) > Weight(sorted[0].item) {
        InsertAgrees(a, entries[1..], t, sorted[1..]);
      }
    }
  }

  lemma {:induction false} SortsAgree(tagged: seq<Tagged>, first: nat)
    ensures Mirrors(SortIndexed(WithIndex(Untag(tagged), first)), StableSort(tagged))
    ensures IndexedFrom(SortIndexed(WithIndex(Untag(tagged), first)), first)
    decreases |tagged|
  {
    if tagged != [] {
      var entries := WithIndex(Untag(tagged), first);
      assert Untag(tagged)[1..] == Untag(tagged[1..]);
      assert entries[1..] == WithIndex(Untag(tagged[1..]), first + 1);
      SortsAgree(tagged[1..], first + 1);
      InsertAgrees(entries[0], SortIndexed(entries[1..]), tagged[0], StableSort(tagged[1..]));
    }
  }

  lemma {:induction false} MirrorsUntag(entries: seq<Indexed>, tagged: seq<Tagged>)
    requires Mirrors(entries, tagged)
    ensures ItemsOf(entries) == Untag(tagged)
    decreases |tagged|
  {
    if tagged != [] {
      MirrorsUntag(entries[1..], tagged[1..]);
    }
  }

  // -------- the filters are one filter on the declared items --------

  lemma {:induction false} KeepTagged(items: seq<NavItem>, roles: Option<seq<string>>, userRole: Option<string>)
    ensures Untag(Keep((t: Tagged) => Visible(userRole, t), Tag(items, roles))) ==
            if Passes(userRole, roles) then AllowedItems(items, userRole) else []
    decreases |items|
  {
    if items != [] {
      var p := (t: Tagged) => Visible(userRole, t);
      KeepTagged(items[1..], roles, userRole);
      var tagged := Tag(items, roles);
      assert tagged[1..] == Tag(items[1..], roles);
      if p(tagged[0]) {
        assert Keep(p, tagged)[1..] == Keep(p, tagged[1..]);
      }
    }
  }

  lemma {:induction false} KeepConcat(p: Tagged -> bool, a: seq<Tagged>, b: seq<Tagged>)
    ensures Keep(p, a + b) == Keep(p, a) + Keep(p, b)
    decreases |a|
  {
    if a == [] {
      assert a + b == b;
    } else {
      var rest := Keep(p, a[1..]);
      assert (a + b)[1..] == a[1..] + b;
      KeepConcat(p, a[1..], b);
      assert [a[0]] + rest + Keep(p, b) == [a[0]] + (rest + Keep(p, b));
    }
  }

  lemma {:induction false} UntagConcat(a: seq<Tagged>, b: seq<Tagged>)
    ensures Untag(a + b) == Untag(a) + Untag(b)
    decreases |a|
  {
    if a == [] {
      assert a + b == b;
    } else {
      assert (a + b)[1..] == a[1..] + b;
      UntagConcat(a[1..], b);
    }
  }

  lemma {:induction false} AllowedConcat(a: seq<NavItem>, b: seq<NavItem>, userRole: Option<string>)
    ensures AllowedItems(a + b, userRole) == AllowedItems(a, userRole) + AllowedItems(b, userRole)
    decreases |a|
  {
    if a == [] {
      assert a + b == b;
    } else {
      assert (a + b)[1..] == a[1..] + b;
      AllowedConcat(a[1..], b, userRole);
    }
  }

  lemma {:induction false} FiltersAreOne(features: seq<Feature>, userRole: Option<string>)
    ensures AllowedItems(FlatNav(AllowedFeatures(features, userRole)), userRole) ==
            Untag(Keep((t: Tagged) => Visible(userRole, t), Declared(features)))
    decreases |features|
  {
    if features != [] {
      var p, f := (t: Tagged) => Visible(userRole, t), features[0];
      var mine, rest := Tag(NavOf(f), f.roles), Declared(features[1..]);
      FiltersAreOne(features[1..], userRole);
      KeepTagged(NavOf(f), f.roles, userRole);
      KeepConcat(p, mine, rest);
      UntagConcat(Keep(p, mine), Keep(p, rest));
      var allowed := AllowedFeatures(features[1..], userRole);
      if Passes(userRole, f.roles) {
        assert ([f] + allowed)[1..] == allowed;
        AllowedConcat(NavOf(f), FlatNav(allowed), userRole);
      }
    }
  }

  /** The menu for a role is the full menu with exactly the items kept whose feature and own role
      lists let the role in: the same order, nothing moved. */
  lemma CollectNavFilters(features: seq<Feature>, userRole: Option<string>)
    ensures CollectNav(features, userRole) ==
            Untag(Keep((t: Tagged) => Visible(userRole, t), StableSort(Declared(features))))
  {
    var p := (t: Tagged) => Visible(userRole, t);
    var kept := Keep(p, Declared(features));
    FiltersAreOne(features, userRole);
    SortsAgree(kept, 0);
    MirrorsUntag(SortIndexed(WithIndex(Untag(kept), 0)), StableSort(kept));
    KeepCommutes(p, Declared(features));
  }

  /** Without a role the menu is every declared item, stably sorted by weight. */
  lemma CollectNavSorts(features: seq<Feature>)
    ensures CollectNav(features, None) == Untag(StableSort(Declared(features)))
    ensures Sorted(StableSort(Declared(features)))
    ensures multiset(StableSort(Declared(features))) == multiset(Declared(features))
  {
    CollectNavFilters(features, None);
    StableSortSorts(Declared(features));
    KeepsAll((t: Tagged) => Visible(None, t), StableSort(Declared(features)));
  }

  lemma {:induction false} KeepsAll(p: Tagged -> bool, tagged: seq<Tagged>)
    requires forall t <- tagged :: p(t)
    ensures Keep(p, tagged) == tagged
    decreases |tagged|
  {
    if tagged != [] {
      KeepsAll(p, tagged[1..]);
      assert tagged == [tagged[0]] + tagged[1..];
    }
  }

  /** Who sees an item: everybody without a role; else whoever both the feature's list and the item's own
      let in, an absent or empty list letting in all. */
  lemma VisibleIff(userRole: Option<string>, t: Tagged)
    ensures Visible(userRole, t) <==>
            || userRole == None || userRole.value == ""
            || (&& (t.featureRoles == None || t.featureRoles.value == [] || userRole.value in t.featureRoles.value)
                && (t.item.roles == None || t.item.roles.value == [] || userRole.value in t.item.roles.value))
  {
  }

  lemma {:induction false} SortedHolds(tagged: seq<Tagged>, i: nat, j: nat)
    requires Sorted(tagged) && i < j < |tagged|
    ensures Weight(tagged[i].item) <= Weight(tagged[j].item)
    decreases |tagged|
  {
    if i == 0 {
      assert tagged[j] in tagged[1..];
    } else {
      SortedHolds(tagged[1..], i - 1, j - 1);
    }
  }

  lemma {:induction false} UntagAt(tagged: seq<Tagged>, i: nat)
    ensures |Untag(tagged)| == |tagged|
    ensures i < |tagged| ==> Untag(tagged)[i] == tagged[i].item
    decreases |tagged|
  {
    if tagged != [] {
      UntagAt(tagged[1..], if i > 0 then i - 1 else 0);
    }
  }

  lemma {:induction false} KeepSorted(p: Tagged -> bool, tagged: seq<Tagged>)
    requires Sorted(tagged)
    ensures Sorted(Keep(p, tagged))
    decreases |tagged|
  {
    if tagged != [] {
      KeepSorted(p, tagged[1..]);
      KeepMembers(p, tagged[1..]);
      if p(tagged[0]) {
        assert Keep(p, tagged)[1..] == Keep(p, tagged[1..]);
      }
    }
  }

  /** In any menu a later item never has a smaller order, an item without one counting as 100. */
  lemma MenuIsOrdered(features: seq<Feature>, userRole: Option<string>, i: nat, j: nat)
    requires i < j < |CollectNav(features, userRole)|
    ensures var a, b := CollectNav(features, userRole)[i].order, CollectNav(features, userRole)[j].order;
            (if a == None then 100.0 else a.value) <= (if b == None then 100.0 else b.value)
  {
    var p, all := (t: Tagged) => Visible(userRole, t), StableSort(Declared(features));
    CollectNavFilters(features, userRole);
    StableSortSorts(Declared(features));
    KeepSorted(p, all);
    UntagAt(Keep(p, all), i);
    UntagAt(Keep(p, all), j);
    SortedHolds(Keep(p, all), i, j);
  }

  /** How many items the features before the i-th declare. */
  function Before(features: seq<Feature>, i: nat): nat
    requires i <= |features|
  {
    if i == 0 then 0
    else Before(features[1..], i - 1) + if features[0].nav == None then 0 else |features[0].nav.value|
  }

  lemma {:induction false} TagAt(items: seq<NavItem>, roles: Option<seq<string>>, j: nat)
    ensures |Tag(items, roles)| == |items|
    ensures j < |items| ==> Tag(items, roles)[j] == Tagged(items[j], roles)
    decreases |items|
  {
    if items != [] {
      TagAt(items[1..], roles, if j > 0 then j - 1 else 0);
    }
  }

  /** The declaration order: features as registered, each feature's entries as listed, with its roles. */
  lemma {:induction false} DeclaredAt(features: seq<Feature>, i: nat, j: nat)
    requires i < |features| && features[i].nav.Some? && j < |features[i].nav.value|
    ensures Before(features, i) + j < |Declared(features)|
    ensures Declared(features)[Before(features, i) + j] == Tagged(features[i].nav.value[j], features[i].roles)
    decreases |features|
  {
    var f := features[0];
    var items := if f.nav == None then [] else f.nav.value;
    if i == 0 {
      TagAt(items, f.roles, j);
    } else {
      TagAt(items, f.roles, 0);
      DeclaredAt(features[1..], i - 1, j);
    }
  }

  lemma {:induction false} DeclaredIff(features: seq<Feature>, t: Tagged)
    ensures t in Declared(features) <==>
            exists f :: f in features && Lists(f, t.item) && t.featureRoles == f.roles
    decreases |features|
  {
    if features != [] {
      var f := features[0];
      var items := if f.nav == None then [] else f.nav.value;
      DeclaredIff(features[1..], t);
      TagIff(items, f.roles, t);
      assert Declared(features) == Tag(items, f.roles) + Declared(features[1..]);
      assert forall g :: g in features <==> g == f || g in features[1..];
    }
  }

  lemma {:induction false} TagIff(items: seq<NavItem>, roles: Option<seq<string>>, t: Tagged)
    ensures t in Tag(items, roles) <==> t.item in items && t.featureRoles == roles
    decreases |items|
  {
    if items != [] {
      TagIff(items[1..], roles, t);
      assert items == [items[0]] + items[1..];
    }
  }

  lemma {:induction false} KeepIff(p: Tagged -> bool, tagged: seq<Tagged>, t: Tagged)
    ensures t in Keep(p, tagged) <==> t in tagged && p(t)
    decreases |tagged|
  {
    if tagged != [] {
      KeepIff(p, tagged[1..], t);
      assert tagged == [tagged[0]] + tagged[1..];
    }
  }

  lemma {:induction false} UntagIff(tagged: seq<Tagged>, item: NavItem)
    ensures item in Untag(tagged) <==> exists t :: t in tagged && t.item == item
    decreases |tagged|
  {
    if tagged != [] {
      UntagIff(tagged[1..], item);
      assert tagged == [tagged[0]] + tagged[1..];
    }
  }

  lemma {:induction false} KeepStable(p: Tagged -> bool, tagged: seq<Tagged>, t: Tagged)
    ensures t in Keep(p, StableSort(tagged)) <==> t in tagged && p(t)
  {
    KeepIff(p, StableSort(tagged), t);
    StableSortSorts(tagged);
    assert t in multiset(StableSort(tagged)) <==> t in multiset(tagged);
  }

  predicate Lists(f: Feature, item: NavItem) {
    f.nav.Some? && item in f.nav.value
  }

  /** An item is in the menu for a role exactly when some feature lists it and both that feature and the
      item let the role in. */
  lemma ShownIff(features: seq<Feature>, userRole: Option<string>, item: NavItem)
    ensures item in CollectNav(features, userRole) <==>
            exists f :: f in features && Lists(f, item) && Visible(userRole, Tagged(item, f.roles))
  {
    var p := (t: Tagged) => Visible(userRole, t);
    var kept := Keep(p, StableSort(Declared(features)));
    CollectNavFilters(features, userRole);
    UntagIff(kept, item);
    if item in CollectNav(features, userRole) {
      var t :| t in kept && t.item == item;
      KeepStable(p, Declared(features), t);
      DeclaredIff(features, t);
      var f :| f in features && Lists(f, item) && t.featureRoles == f.roles;
      assert t == Tagged(item, f.roles);
    }
    if f :| f in features && Lists(f, item) && Visible(userRole, Tagged(item, f.roles)) {
      DeclaredIff(features, Tagged(item, f.roles));
      KeepStable(p, Declared(features), Tagged(item, f.roles));
    }
  }
}
