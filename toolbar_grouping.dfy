/**
 * The toolbar grouping engine of `toolbarItemFactory.ts`: `setGroupState`,
 * `groupToolbarItems` (one left-to-right pass that merges consecutive single
 * items into one group and turns every array into a group of its own) and
 * `toggleScrollSync` (reapplies the scroll-sync visibility rule in place).
 */
module ToolbarGrouping {
  import opened Wrappers
  import opened ToolbarCatalog

  /** One entry of the caller's list: a single item, or an array of items (an explicit group). */
  datatype Entry<T> = Single(item: T) | Nested(items: seq<T>)

  /** The caller's toolbar configuration entry (`ToolbarItem`). */
  type ToolbarItem = Entry<ItemSpec>

  /** A toolbar group (`ToolbarGroupInfo`): its descriptors and the `hidden` flag set on the array. */
  datatype Group = Group(items: seq<ButtonInfo>, hidden: bool)

  /** An identifier that names no catalog entry: `groupToolbarItems` in `toolbarItemFactory.ts` then fails writing `hidden` on `undefined`. */
  datatype GroupError = Unresolved(spec: ItemSpec)

  /** The scroll-sync visibility rule: `name === 'scrollSync' && hiddenScrollSync`. */
  function HiddenFor(name: string, hiddenScrollSync: bool): bool {
    name == ScrollSyncName && hiddenScrollSync
  }

  /** `toggleScrollSyncState`: overwrites `hidden` by the scroll-sync rule. */
  function ToggleScrollSyncState(info: ButtonInfo, hiddenScrollSync: bool): (r: ButtonInfo)
    ensures r.hidden <==> info.name == ScrollSyncName && hiddenScrollSync
    ensures r.(hidden := info.hidden) == info
  {
    info.(hidden := HiddenFor(info.name, hiddenScrollSync))
  }

  /** All descriptors hidden (true of the empty sequence). */
  predicate AllHidden(items: seq<ButtonInfo>) {
    forall i :: 0 <= i < |items| ==> items[i].hidden
  }

  /** `group.filter((info) => info.hidden).length`. */
  function CountHidden(items: seq<ButtonInfo>): (n: nat)
    ensures n <= |items|
    ensures n == |items| <==> AllHidden(items)
  {
    if items == [] then 0
    else
      var n' := CountHidden(items[..|items| - 1]);
      assert AllHidden(items) <==> AllHidden(items[..|items| - 1]) && items[|items| - 1].hidden;
      n' + (if items[|items| - 1].hidden then 1 else 0)
  }

  /** `setGroupState`: the group is hidden exactly when all its items are. */
  function SetGroupState(group: Group): (r: Group)
    ensures r.items == group.items
    ensures r.hidden <==> forall i :: 0 <= i < |group.items| ==> group.items[i].hidden
  {
    group.(hidden := |group.items| == CountHidden(group.items))
  }

  /** Every descriptor's `hidden` is what the scroll-sync rule says for its name. */
  predicate FollowsScrollSyncRule(items: seq<ButtonInfo>, hiddenScrollSync: bool) {
    forall p :: 0 <= p < |items| ==> items[p].hidden == HiddenFor(items[p].name, hiddenScrollSync)
  }

  /** A group whose items follow the rule and whose own flag is "all items hidden". */
  predicate GroupConsistent(g: Group, hiddenScrollSync: bool) {
    FollowsScrollSyncRule(g.items, hiddenScrollSync) && (g.hidden <==> AllHidden(g.items))
  }

  predicate GroupsConsistent(gs: seq<Group>, hiddenScrollSync: bool) {
    forall k :: 0 <= k < |gs| ==> GroupConsistent(gs[k], hiddenScrollSync)
  }

  // ---------------------------------------------------------------------
  // groupToolbarItems as a left fold

  /** The reduce state: the groups so far (`acc`) and the `needNested` flag. */
  datatype FoldState = FoldState(groups: seq<Group>, needNested: bool)

  /**
   * `toggleScrollSyncState(createToolbarItemInfo(spec))`. The spec functions
   * take the catalog as a parameter; `toolbarItemFactory.ts` always uses the default one.
   */
  function Prepare(catalog: Catalog, spec: ItemSpec, hiddenScrollSync: bool): Result<ButtonInfo, GroupError> {
    match Resolve(catalog, spec)
    case None => Failure(Unresolved(spec))
    case Some(info) => Success(ToggleScrollSyncState(info, hiddenScrollSync))
  }

  /**
   * `item.map((type) => toggleScrollSyncState(createToolbarItemInfo(type)))`:
   * succeeds exactly when every identifier resolves, and then holds each
   * resolved descriptor with `hidden` overwritten by the scroll-sync rule;
   * otherwise it fails on the first identifier that does not resolve.
   */
  function PrepareAll(catalog: Catalog, specs: seq<ItemSpec>, hiddenScrollSync: bool): (r: Result<seq<ButtonInfo>, GroupError>)
    ensures r.Success? <==> forall j :: 0 <= j < |specs| ==> Resolve(catalog, specs[j]).Some?
    ensures r.Success? ==> |r.value| == |specs|
    ensures r.Success? ==> forall j :: 0 <= j < |specs| ==>
                             Resolve(catalog, specs[j]).Some? &&
                             r.value[j] == ToggleScrollSyncState(Resolve(catalog, specs[j]).value, hiddenScrollSync)
    ensures r.Failure? ==> exists j :: 0 <= j < |specs| && r.error == Unresolved(specs[j]) &&
                                       Resolve(catalog, specs[j]).None? &&
                                       forall i :: 0 <= i < j ==> Resolve(catalog, specs[i]).Some?
  {
    if specs == [] then Success([])
    else
      var init := specs[..|specs| - 1];
      assert forall j :: 0 <= j < |init| ==> init[j] == specs[j];
      match PrepareAll(catalog, init, hiddenScrollSync)
      case Failure(e) => Failure(e)
      case Success(infos) =>
        (match Prepare(catalog, specs[|specs| - 1], hiddenScrollSync)
         case Failure(e) => Failure(e)
         case Success(info) => Success(infos + [info]))
  }

  /**
   * One entry resolved: a single identifier or descriptor, or the `map` over
   * an array; the descriptors it yields follow the scroll-sync rule.
   */
  function PrepareEntry(catalog: Catalog, entry: ToolbarItem, hiddenScrollSync: bool): (r: Result<Entry<ButtonInfo>, GroupError>)
    ensures r.Success? ==> (r.value.Single? <==> entry.Single?)
    ensures r.Success? && r.value.Single? ==> FollowsScrollSyncRule([r.value.item], hiddenScrollSync)
    ensures r.Success? && r.value.Nested? ==> FollowsScrollSyncRule(r.value.items, hiddenScrollSync)
  {
    match entry
    case Single(spec) =>
      (match Prepare(catalog, spec, hiddenScrollSync)
       case Failure(e) => Failure(e)
       case Success(info) => Success(Single(info)))
    case Nested(specs) =>
      (match PrepareAll(catalog, specs, hiddenScrollSync)
       case Failure(e) => Failure(e)
       case Success(infos) => Success(Nested(infos)))
  }

  /**
   * Where a resolved entry goes: an array becomes a new group and clears
   * `needNested`; a single item joins the last group when `needNested` is
   * set, and otherwise opens a new group and sets it. The changed group gets
   * `setGroupState`.
   */
  function Push(st: FoldState, x: Entry<ButtonInfo>): (r: FoldState)
    requires st.needNested ==> |st.groups| > 0
    ensures r.needNested ==> |r.groups| > 0
  {
    match x
    case Nested(infos) => FoldState(st.groups + [SetGroupState(Group(infos, false))], false)
    case Single(info) =>
      if st.needNested then
        var k := |st.groups| - 1;
        var last := st.groups[k];
        FoldState(st.groups[k := SetGroupState(Group(last.items + [info], last.hidden))], true)
      else
        FoldState(st.groups + [SetGroupState(Group([info], false))], true)
  }

  /** Pushing descriptors that follow the rule keeps every group consistent. */
  lemma PushConsistent(st: FoldState, x: Entry<ButtonInfo>, h: bool)
    requires st.needNested ==> |st.groups| > 0
    requires GroupsConsistent(st.groups, h)
    requires x.Single? ==> FollowsScrollSyncRule([x.item], h)
    requires x.Nested? ==> FollowsScrollSyncRule(x.items, h)
    ensures GroupsConsistent(Push(st, x).groups, h)
  {
    if x.Single? && st.needNested {
      var last := st.groups[|st.groups| - 1];
      assert GroupConsistent(last, h);
      assert FollowsScrollSyncRule(last.items + [x.item], h);
    }
  }

  /** One call of the reduce callback, up to and including `setGroupState` on the changed group. */
  function Step(catalog: Catalog, st: FoldState, entry: ToolbarItem, hiddenScrollSync: bool): (r: Result<FoldState, GroupError>)
    requires st.needNested ==> |st.groups| > 0
    requires GroupsConsistent(st.groups, hiddenScrollSync)
    ensures r.Success? ==> GroupsConsistent(r.value.groups, hiddenScrollSync)
    ensures r.Success? && r.value.needNested ==> |r.value.groups| > 0
  {
    match PrepareEntry(catalog, entry, hiddenScrollSync)
    case Failure(e) => Failure(e)
    case Success(x) =>
      PushConsistent(st, x, hiddenScrollSync);
      Success(Push(st, x))
  }

  /**
   * The reduce over a prefix of the entries. The `needNested` branch, which
   * pushes into the last group, is only ever taken when there is a group;
   * after every step each item follows the scroll-sync rule and each group's
   * flag says whether all its items are hidden.
   */
  function Fold(catalog: Catalog, entries: seq<ToolbarItem>, hiddenScrollSync: bool): (r: Result<FoldState, GroupError>)
    ensures r.Success? && r.value.needNested ==> |r.value.groups| > 0
    ensures r.Success? ==> GroupsConsistent(r.value.groups, hiddenScrollSync)
    decreases |entries|
  {
    if entries == [] then Success(FoldState([], false))
    else
      match Fold(catalog, entries[..|entries| - 1], hiddenScrollSync)
      case Failure(e) => Failure(e)
      case Success(st) => Step(catalog, st, entries[|entries| - 1], hiddenScrollSync)
  }

  /** The value `groupToolbarItems` returns, or the identifier it fails on. */
  function Grouped(catalog: Catalog, entries: seq<ToolbarItem>, hiddenScrollSync: bool): Result<seq<Group>, GroupError> {
    match Fold(catalog, entries, hiddenScrollSync)
    case Failure(e) => Failure(e)
    case Success(st) => Success(st.groups)
  }

  /** Once the pass has failed on a prefix it fails on every extension, with the same error. */
  lemma {:induction false} FoldFailurePersists(catalog: Catalog, entries: seq<ToolbarItem>, i: nat, h: bool)
    requires i <= |entries| && Fold(catalog, entries[..i], h).Failure?
    ensures Fold(catalog, entries, h) == Fold(catalog, entries[..i], h)
    decreases |entries| - i
  {
    if i < |entries| {
      assert entries[..i + 1][..i] == entries[..i];
      FoldFailurePersists(catalog, entries, i + 1, h);
    } else {
      assert entries[..i] == entries;
    }
  }

  /** The same for the `map` over an array entry. */
  lemma {:induction false} PrepareAllFailurePersists(catalog: Catalog, specs: seq<ItemSpec>, j: nat, h: bool)
    requires j <= |specs| && PrepareAll(catalog, specs[..j], h).Failure?
    ensures PrepareAll(catalog, specs, h) == PrepareAll(catalog, specs[..j], h)
    decreases |specs| - j
  {
    if j < |specs| {
      assert specs[..j + 1][..j] == specs[..j];
      PrepareAllFailurePersists(catalog, specs, j + 1, h);
    } else {
      assert specs[..j] == specs;
    }
  }

  /** `item.map((type) => toggleScrollSyncState(createToolbarItemInfo(type)))` for an array entry. */
  method PrepareGroup(registry: ToolbarItemRegistry, specs: seq<ItemSpec>, hiddenScrollSync: bool)
    returns (r: Result<seq<ButtonInfo>, GroupError>)
    requires registry.Valid()
    modifies registry
    ensures registry.Valid()
    ensures r == PrepareAll(DefaultCatalog(), specs, hiddenScrollSync)
  {
    var infos: seq<ButtonInfo> := [];
    for j := 0 to |specs|
      invariant registry.Valid()
      invariant PrepareAll(DefaultCatalog(), specs[..j], hiddenScrollSync) == Success(infos)
    {
      assert specs[..j + 1][..j] == specs[..j];
      var info := registry.CreateToolbarItemInfo(specs[j]);
      if info.None? {
        PrepareAllFailurePersists(DefaultCatalog(), specs, j + 1, hiddenScrollSync);
        return Failure(Unresolved(specs[j]));
      }
      infos := infos + [ToggleScrollSyncState(info.value, hiddenScrollSync)];
    }
    assert specs[..|specs|] == specs;
    r := Success(infos);
  }

  /** The reduce callback of `groupToolbarItems`: one entry, then `setGroupState` on the last group. */
  method GroupStep(registry: ToolbarItemRegistry, acc: seq<Group>, needNested: bool, item: ToolbarItem,
                   hiddenScrollSync: bool)
    returns (r: Result<FoldState, GroupError>)
    requires registry.Valid()
    requires needNested ==> |acc| > 0
    requires GroupsConsistent(acc, hiddenScrollSync)
    modifies registry
    ensures registry.Valid()
    ensures r == Step(DefaultCatalog(), FoldState(acc, needNested), item, hiddenScrollSync)
  {
    ghost var before := FoldState(acc, needNested);
    var groups, nested := acc, needNested;
    match item {
      case Nested(specs) =>
        nested := false;
        var infos := PrepareGroup(registry, specs, hiddenScrollSync);
        if infos.Failure? {
          return Failure(infos.error);
        }
        groups := groups + [Group(infos.value, false)];
        assert groups[|groups| - 1 := SetGroupState(groups[|groups| - 1])]
          == acc + [SetGroupState(Group(infos.value, false))];
      case Single(spec) =>
        var info := registry.CreateToolbarItemInfo(spec);
        if info.None? {
          return Failure(Unresolved(spec));
        }
        var toggled := ToggleScrollSyncState(info.value, hiddenScrollSync);
        assert Prepare(DefaultCatalog(), spec, hiddenScrollSync) == Success(toggled);
        if nested {
          var k := (if |groups| == 0 then 1 else |groups|) - 1;
          groups := groups[k := Group(groups[k].items + [toggled], groups[k].hidden)];
          assert groups[k := SetGroupState(groups[k])]
            == acc[k := SetGroupState(Group(acc[k].items + [toggled], acc[k].hidden))];
        } else {
          nested := true;
          groups := groups + [Group([toggled], false)];
          assert groups[|groups| - 1 := SetGroupState(groups[|groups| - 1])]
            == acc + [SetGroupState(Group([toggled], false))];
        }
    }
    var k := (if |groups| == 0 then 1 else |groups|) - 1;
    if k < |groups| {
      groups := groups[k := SetGroupState(groups[k])];
    }
    r := Success(FoldState(groups, nested));
  }

  /**
   * `groupToolbarItems`: the reduce over the caller's entries, resolving each
   * identifier through the registry (which builds the catalog on first use).
   */
  method GroupToolbarItems(registry: ToolbarItemRegistry, toolbarItems: seq<ToolbarItem>, hiddenScrollSync: bool)
    returns (r: Result<seq<Group>, GroupError>)
    requires registry.Valid()
    modifies registry
    ensures registry.Valid()
    ensures r == Grouped(DefaultCatalog(), toolbarItems, hiddenScrollSync)
  {
    var needNested := false;
    var acc: seq<Group> := [];
    for i := 0 to |toolbarItems|
      invariant registry.Valid()
      invariant Fold(DefaultCatalog(), toolbarItems[..i], hiddenScrollSync) == Success(FoldState(acc, needNested))
    {
      assert toolbarItems[..i + 1][..i] == toolbarItems[..i];
      var step := GroupStep(registry, acc, needNested, toolbarItems[i], hiddenScrollSync);
      if step.Failure? {
        FoldFailurePersists(DefaultCatalog(), toolbarItems, i + 1, hiddenScrollSync);
        return Failure(step.error);
      }
      acc, needNested := step.value.groups, step.value.needNested;
    }
    assert toolbarItems[..|toolbarItems|] == toolbarItems;
    r := Success(acc);
  }

  // ---------------------------------------------------------------------
  // toggleScrollSync

  /** The scroll-sync rule applied to every descriptor of a group. */
  function ApplyScrollSyncRule(items: seq<ButtonInfo>, hiddenScrollSync: bool): seq<ButtonInfo> {
    seq(|items|, p requires 0 <= p < |items| => ToggleScrollSyncState(items[p], hiddenScrollSync))
  }

  /** One group after `toggleScrollSync`: the rule on its items, then `setGroupState`. */
  function RetoggleGroup(g: Group, hiddenScrollSync: bool): Group {
    SetGroupState(Group(ApplyScrollSyncRule(g.items, hiddenScrollSync), g.hidden))
  }

  /** The groups after `toggleScrollSync`. */
  function Retoggled(gs: seq<Group>, hiddenScrollSync: bool): seq<Group> {
    seq(|gs|, k requires 0 <= k < |gs| => RetoggleGroup(gs[k], hiddenScrollSync))
  }

  /** `toggleScrollSync`: reapplies the rule to every item of every group, in place, and recomputes each group's flag. */
  method ToggleScrollSync(toolbarItems: array<Group>, hiddenScrollSync: bool)
    modifies toolbarItems
    ensures toolbarItems[..] == Retoggled(old(toolbarItems[..]), hiddenScrollSync)
  {
    for k := 0 to toolbarItems.Length
      invariant forall m :: 0 <= m < k ==> toolbarItems[m] == RetoggleGroup(old(toolbarItems[m]), hiddenScrollSync)
      invariant forall m :: k <= m < toolbarItems.Length ==> toolbarItems[m] == old(toolbarItems[m])
    {
      var group := toolbarItems[k];
      var items := group.items;
      for p := 0 to |items|
        invariant |items| == |group.items|
        invariant forall q :: 0 <= q < p ==> items[q] == ToggleScrollSyncState(group.items[q], hiddenScrollSync)
        invariant forall q :: p <= q < |items| ==> items[q] == group.items[q]
      {
        items := items[p := ToggleScrollSyncState(items[p], hiddenScrollSync)];
      }
      assert items == ApplyScrollSyncRule(group.items, hiddenScrollSync);
      toolbarItems[k] := SetGroupState(Group(items, group.hidden));
    }
  }

  /** After a retoggle every item follows the rule and every group's flag is "all items hidden". */
  lemma RetoggledConsistent(gs: seq<Group>, hiddenScrollSync: bool)
    ensures GroupsConsistent(Retoggled(gs, hiddenScrollSync), hiddenScrollSync)
  {
  }

  /**
   * A retoggle keeps the number of groups, each group's length, and every
   * descriptor except its `hidden` flag: order and names are unchanged.
   */
  lemma RetoggledShape(gs: seq<Group>, hiddenScrollSync: bool)
    ensures |Retoggled(gs, hiddenScrollSync)| == |gs|
    ensures forall k :: 0 <= k < |gs| ==> |Retoggled(gs, hiddenScrollSync)[k].items| == |gs[k].items|
    ensures forall k, p :: 0 <= k < |gs| && 0 <= p < |gs[k].items| ==>
      Retoggled(gs, hiddenScrollSync)[k].items[p] ==
        gs[k].items[p].(hidden := Retoggled(gs, hiddenScrollSync)[k].items[p].hidden)
  {
  }

  /** Groups that already follow the rule are left exactly as they are. */
  lemma RetoggleConsistentUnchanged(gs: seq<Group>, hiddenScrollSync: bool)
    requires GroupsConsistent(gs, hiddenScrollSync)
    ensures Retoggled(gs, hiddenScrollSync) == gs
  {
    forall k | 0 <= k < |gs| ensures RetoggleGroup(gs[k], hiddenScrollSync) == gs[k] {
      assert GroupConsistent(gs[k], hiddenScrollSync);
      assert ApplyScrollSyncRule(gs[k].items, hiddenScrollSync) == gs[k].items;
    }
  }

  /** Toggling twice with the same flag is the same as toggling once. */
  lemma RetoggleIdempotent(gs: seq<Group>, hiddenScrollSync: bool)
    ensures Retoggled(Retoggled(gs, hiddenScrollSync), hiddenScrollSync) == Retoggled(gs, hiddenScrollSync)
  {
    RetoggledConsistent(gs, hiddenScrollSync);
    RetoggleConsistentUnchanged(Retoggled(gs, hiddenScrollSync), hiddenScrollSync);
  }

  lemma ApplyScrollSyncRuleAppend(items: seq<ButtonInfo>, info: ButtonInfo, h: bool)
    ensures ApplyScrollSyncRule(items + [info], h) == ApplyScrollSyncRule(items, h) + [ToggleScrollSyncState(info, h)]
  {
  }

  lemma RetoggledAppend(gs: seq<Group>, g: Group, h: bool)
    ensures Retoggled(gs + [g], h) == Retoggled(gs, h) + [RetoggleGroup(g, h)]
  {
  }

  lemma RetoggledUpdate(gs: seq<Group>, k: nat, g: Group, h: bool)
    requires k < |gs|
    ensures Retoggled(gs[k := g], h) == Retoggled(gs, h)[k := RetoggleGroup(g, h)]
  {
  }

  /** Resolving an array entry under another flag only changes the `hidden` flags. */
  lemma {:induction false} PrepareAllRetoggle(catalog: Catalog, specs: seq<ItemSpec>, h: bool, h': bool)
    ensures PrepareAll(catalog, specs, h') ==
      match PrepareAll(catalog, specs, h)
      case Failure(e) => Failure(e)
      case Success(infos) => Success(ApplyScrollSyncRule(infos, h'))
    decreases |specs|
  {
    if specs != [] {
      var init := specs[..|specs| - 1];
      var last := specs[|specs| - 1];
      PrepareAllRetoggle(catalog, init, h, h');
      assert Prepare(catalog, last, h').Success? <==> Prepare(catalog, last, h).Success?;
      if PrepareAll(catalog, init, h).Success? && Prepare(catalog, last, h).Success? {
        var infos, info := PrepareAll(catalog, init, h).value, Prepare(catalog, last, h).value;
        assert Prepare(catalog, last, h') == Success(ToggleScrollSyncState(info, h'));
        assert PrepareAll(catalog, specs, h) == Success(infos + [info]);
        ApplyScrollSyncRuleAppend(infos, info, h');
      } else if PrepareAll(catalog, init, h).Success? {
        assert Prepare(catalog, last, h').error == Prepare(catalog, last, h).error;
      }
    } else {
      assert ApplyScrollSyncRule([], h') == [];
    }
  }

  /** The scroll-sync rule applied to what a resolved entry holds. */
  function RetoggleEntry(x: Entry<ButtonInfo>, h: bool): Entry<ButtonInfo> {
    match x
    case Single(info) => Single(ToggleScrollSyncState(info, h))
    case Nested(infos) => Nested(ApplyScrollSyncRule(infos, h))
  }

  lemma PrepareEntryRetoggle(catalog: Catalog, entry: ToolbarItem, h: bool, h': bool)
    ensures PrepareEntry(catalog, entry, h').Success? <==> PrepareEntry(catalog, entry, h).Success?
    ensures PrepareEntry(catalog, entry, h).Failure? ==> PrepareEntry(catalog, entry, h') == PrepareEntry(catalog, entry, h)
    ensures PrepareEntry(catalog, entry, h).Success? ==>
      PrepareEntry(catalog, entry, h').value == RetoggleEntry(PrepareEntry(catalog, entry, h).value, h')
  {
    if entry.Nested? {
      PrepareAllRetoggle(catalog, entry.items, h, h');
    }
  }

  lemma PushRetoggle(st: FoldState, x: Entry<ButtonInfo>, h': bool)
    requires st.needNested ==> |st.groups| > 0
    ensures Push(FoldState(Retoggled(st.groups, h'), st.needNested), RetoggleEntry(x, h'))
      == FoldState(Retoggled(Push(st, x).groups, h'), Push(st, x).needNested)
  {
    match x {
      case Nested(infos) =>
        RetoggledAppend(st.groups, SetGroupState(Group(infos, false)), h');
      case Single(info) =>
        if st.needNested {
          var k := |st.groups| - 1;
          var last := st.groups[k];
          ApplyScrollSyncRuleAppend(last.items, info, h');
          RetoggledUpdate(st.groups, k, SetGroupState(Group(last.items + [info], last.hidden)), h');
        } else {
          RetoggledAppend(st.groups, SetGroupState(Group([info], false)), h');
          assert ApplyScrollSyncRule([info], h') == [ToggleScrollSyncState(info, h')];
        }
    }
  }

  /** One reduce step under another flag yields the retoggled groups of the step under the first. */
  lemma StepRetoggle(catalog: Catalog, st: FoldState, entry: ToolbarItem, h: bool, h': bool)
    requires st.needNested ==> |st.groups| > 0
    requires GroupsConsistent(st.groups, h)
    requires GroupsConsistent(Retoggled(st.groups, h'), h')
    ensures Step(catalog, st, entry, h).Failure? ==>
      Step(catalog, FoldState(Retoggled(st.groups, h'), st.needNested), entry, h') == Step(catalog, st, entry, h)
    ensures Step(catalog, st, entry, h).Success? ==>
      Step(catalog, FoldState(Retoggled(st.groups, h'), st.needNested), entry, h') ==
        Success(FoldState(Retoggled(Step(catalog, st, entry, h).value.groups, h'), Step(catalog, st, entry, h).value.needNested))
  {
    PrepareEntryRetoggle(catalog, entry, h, h');
    if PrepareEntry(catalog, entry, h).Success? {
      PushRetoggle(st, PrepareEntry(catalog, entry, h).value, h');
    }
  }

  /** The whole pass under another flag yields the retoggled groups of the pass under the first. */
  lemma {:induction false} FoldRetoggle(catalog: Catalog, entries: seq<ToolbarItem>, h: bool, h': bool)
    ensures Fold(catalog, entries, h') ==
      match Fold(catalog, entries, h)
      case Failure(e) => Failure(e)
      case Success(st) => Success(FoldState(Retoggled(st.groups, h'), st.needNested))
    decreases |entries|
  {
    if entries != [] {
      var init := entries[..|entries| - 1];
      FoldRetoggle(catalog, init, h, h');
      if Fold(catalog, init, h).Success? {
        var st := Fold(catalog, init, h).value;
        assert Fold(catalog, entries, h) == Step(catalog, st, entries[|entries| - 1], h);
        assert Fold(catalog, entries, h') ==
          Step(catalog, FoldState(Retoggled(st.groups, h'), st.needNested), entries[|entries| - 1], h');
        RetoggledConsistent(st.groups, h');
        StepRetoggle(catalog, st, entries[|entries| - 1], h, h');
      }
    } else {
      assert Retoggled([], h') == [];
    }
  }

  /**
   * `toggleScrollSync` is what a fresh `groupToolbarItems` with the new flag
   * would give: whether grouping fails does not depend on the flag, and on
   * success regrouping under `h'` equals retoggling the groups to `h'`.
   */
  lemma RegroupIsRetoggle(catalog: Catalog, entries: seq<ToolbarItem>, h: bool, h': bool)
    ensures Grouped(catalog, entries, h').Success? <==> Grouped(catalog, entries, h).Success?
    ensures Grouped(catalog, entries, h).Success? ==>
      Grouped(catalog, entries, h') == Success(Retoggled(Grouped(catalog, entries, h).value, h'))
  {
    FoldRetoggle(catalog, entries, h, h');
  }
}
