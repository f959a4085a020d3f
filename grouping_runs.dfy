/**
 * An independent description of what `groupToolbarItems` computes: the
 * entries are cut into maximal runs of single items and single arrays, each
 * run or array becomes one group. The pass of `toolbarItemFactory.ts` is
 * proved equal to it.
 */
module GroupingRuns {
  import opened Wrappers
  import opened ToolbarCatalog
  import opened ToolbarGrouping

  /** What one entry contributes to the flattened list. */
  function EntryMembers<T>(e: Entry<T>): seq<T> {
    if e.Single? then [e.item] else e.items
  }

  /** The entry list flattened by one level: every item in order. */
  function Members<T>(es: seq<Entry<T>>): seq<T> {
    if es == [] then [] else Members(es[..|es| - 1]) + EntryMembers(es[|es| - 1])
  }

  function Concat<T>(rs: seq<seq<T>>): seq<T> {
    if rs == [] then [] else Concat(rs[..|rs| - 1]) + rs[|rs| - 1]
  }

  predicate EndsWithSingle<T>(es: seq<Entry<T>>) {
    |es| > 0 && es[|es| - 1].Single?
  }

  /** The length of the run of single items the list starts with; the run is maximal. */
  function RunLength<T>(es: seq<Entry<T>>): (n: nat)
    ensures n <= |es|
    ensures forall i :: 0 <= i < n ==> es[i].Single?
    ensures n < |es| ==> es[n].Nested?
  {
    if es == [] || es[0].Nested? then 0 else 1 + RunLength(es[1..])
  }

  predicate AllSingle<T>(es: seq<Entry<T>>) {
    forall i :: 0 <= i < |es| ==> es[i].Single?
  }

  /** The items of a list of single entries. */
  function Singles<T>(es: seq<Entry<T>>): (r: seq<T>)
    requires AllSingle(es)
    ensures |r| == |es|
    ensures forall i :: 0 <= i < |es| ==> r[i] == es[i].item
  {
    if es == [] then [] else Singles(es[..|es| - 1]) + [es[|es| - 1].item]
  }

  /** Every array is a run of its own; every maximal run of single items is one run. */
  function Runs<T>(es: seq<Entry<T>>): seq<seq<T>>
    decreases |es|
  {
    if es == [] then []
    else if es[0].Nested? then [es[0].items] + Runs(es[1..])
    else
      var n := RunLength(es);
      [Singles(es[..n])] + Runs(es[n..])
  }

  /** How many groups a list opens: one per array, one per single item not preceded by a single item. */
  function GroupCount<T>(es: seq<Entry<T>>): nat {
    if es == [] then 0
    else
      var init := es[..|es| - 1];
      GroupCount(init) + (if es[|es| - 1].Nested? || !EndsWithSingle(init) then 1 else 0)
  }

  lemma {:induction false} RunLengthSnoc<T>(es: seq<Entry<T>>, e: Entry<T>)
    ensures RunLength(es + [e]) == if RunLength(es) == |es| && e.Single? then |es| + 1 else RunLength(es)
    decreases |es|
  {
    if es != [] && es[0].Single? {
      assert (es + [e])[1..] == es[1..] + [e];
      RunLengthSnoc(es[1..], e);
    }
  }

  lemma {:induction false} SinglesSnoc<T>(es: seq<Entry<T>>, x: T)
    requires forall i :: 0 <= i < |es| ==> es[i].Single?
    ensures Singles(es + [Single(x)]) == Singles(es) + [x]
  {
    assert (es + [Single(x)])[..|es|] == es;
  }

  /**
   * How the runs of a list grow when entry `e` is appended (`R` before, `R'`
   * after): an array adds a run; a single item extends the last run when the
   * list ended with a single item, and opens a run otherwise.
   */
  ghost predicate RunsGrowBy<T>(R: seq<seq<T>>, R': seq<seq<T>>, e: Entry<T>, endsWithSingle: bool) {
    && (e.Nested? ==> R' == R + [e.items])
    && (e.Single? && endsWithSingle ==> |R| > 0 && R' == R[..|R| - 1] + [R[|R| - 1] + [e.item]])
    && (e.Single? && !endsWithSingle ==> R' == R + [[e.item]])
  }

  lemma {:induction false} PrependRun<T>(x: seq<T>, R: seq<seq<T>>, R': seq<seq<T>>, e: Entry<T>, b: bool)
    requires RunsGrowBy(R, R', e, b)
    ensures RunsGrowBy([x] + R, [x] + R', e, b)
  {
    if e.Single? && b {
      assert ([x] + R)[..|R|] == [x] + R[..|R| - 1];
    }
  }

  /** A list made only of single items is one run. */
  lemma {:induction false} AllSinglesOneRun<T>(es: seq<Entry<T>>)
    requires es != [] && RunLength(es) == |es|
    ensures Runs(es) == [Singles(es)]
  {
    assert es[..|es|] == es;
    assert es[|es|..] == [];
  }

  /** Appending to a list made only of single items. */
  lemma {:induction false} RunsSnocAllSingles<T>(es: seq<Entry<T>>, e: Entry<T>)
    requires es != [] && RunLength(es) == |es|
    ensures RunsGrowBy(Runs(es), Runs(es + [e]), e, EndsWithSingle(es))
  {
    var es' := es + [e];
    var n := |es|;
    RunLengthSnoc(es, e);
    AllSinglesOneRun(es);
    if e.Single? {
      AllSinglesOneRun(es');
      SinglesSnoc(es, e.item);
    } else {
      assert es'[..n] == es;
      assert es'[n..] == [e];
      assert Runs([e]) == [e.items] by { assert [e][1..] == []; }
    }
  }

  /** Appending to the empty list. */
  lemma {:induction false} RunsSnocEmpty<T>(e: Entry<T>)
    ensures RunsGrowBy(Runs([]), Runs([e]), e, false)
  {
    if e.Single? {
      assert RunLength([e]) == 1;
      assert [e][..1] == [e];
      assert Singles([e]) == [e.item] by { assert [e][..0] == []; }
      assert [e][1..] == [];
    } else {
      assert [e][1..] == [];
    }
  }

  lemma {:induction false} RunsSnoc<T>(es: seq<Entry<T>>, e: Entry<T>)
    ensures RunsGrowBy(Runs(es), Runs(es + [e]), e, EndsWithSingle(es))
    decreases |es|
  {
    var es' := es + [e];
    if es == [] {
      assert es' == [e];
      RunsSnocEmpty(e);
    } else if es[0].Nested? {
      assert es'[1..] == es[1..] + [e];
      RunsSnoc(es[1..], e);
      assert EndsWithSingle(es[1..]) == EndsWithSingle(es);
      PrependRun(es[0].items, Runs(es[1..]), Runs(es[1..] + [e]), e, EndsWithSingle(es));
    } else {
      var n := RunLength(es);
      RunLengthSnoc(es, e);
      if n < |es| {
        assert RunLength(es') == n;
        assert es'[..n] == es[..n];
        assert es'[n..] == es[n..] + [e];
        RunsSnoc(es[n..], e);
        assert EndsWithSingle(es[n..]) == EndsWithSingle(es);
        PrependRun(Singles(es[..n]), Runs(es[n..]), Runs(es[n..] + [e]), e, EndsWithSingle(es));
      } else {
        RunsSnocAllSingles(es, e);
      }
    }
  }

  /** The runs, concatenated, are the entries' items in order: nothing lost, added or moved. */
  lemma {:induction false} RunsConcat<T>(es: seq<Entry<T>>)
    ensures Concat(Runs(es)) == Members(es)
    decreases |es|
  {
    if es != [] {
      var init, e := es[..|es| - 1], es[|es| - 1];
      assert es == init + [e];
      RunsConcat(init);
      RunsSnoc(init, e);
      var R := Runs(init);
      if e.Nested? {
        assert (R + [e.items])[..|R|] == R;
      } else if EndsWithSingle(init) {
        var k := |R|;
        var R' := R[..k - 1] + [R[k - 1] + [e.item]];
        assert R'[..k - 1] == R[..k - 1];
        assert Concat(R) == Concat(R[..k - 1]) + R[k - 1];
      } else {
        assert (R + [[e.item]])[..|R|] == R;
      }
    }
  }

  /** There are as many runs as arrays plus starts of runs of single items. */
  lemma {:induction false} RunsCount<T>(es: seq<Entry<T>>)
    ensures |Runs(es)| == GroupCount(es)
    decreases |es|
  {
    if es != [] {
      var init, e := es[..|es| - 1], es[|es| - 1];
      assert es == init + [e];
      RunsCount(init);
      RunsSnoc(init, e);
    }
  }

  /**
   * Once the prefix `es[..j]` ends with an array (or is empty), its runs are
   * final: later entries only add runs after them.
   */
  lemma {:induction false} RunsPrefixStable<T>(es: seq<Entry<T>>, j: nat, m: nat)
    requires j <= m <= |es|
    requires j == 0 || es[j - 1].Nested?
    ensures |Runs(es[..j])| <= |Runs(es[..m])|
    ensures Runs(es[..m])[..|Runs(es[..j])|] == Runs(es[..j])
    ensures m > j ==> |Runs(es[..m])| > |Runs(es[..j])|
    decreases m
  {
    if m > j {
      RunsPrefixStable(es, j, m - 1);
      var P, e := es[..m - 1], es[m - 1];
      assert es[..m] == P + [e];
      RunsSnoc(P, e);
      var L, R := |Runs(es[..j])|, Runs(P);
      if e.Single? && EndsWithSingle(P) {
        assert m - 1 > j;
        assert Runs(es[..m])[..L] == R[..L];
      } else {
        assert Runs(es[..m])[..L] == R[..L];
      }
    } else {
      assert Runs(es[..m])[..|Runs(es[..m])|] == Runs(es[..m]);
    }
  }

  /** An array entry is one run by itself, the one after the runs opened before it. */
  lemma ArrayEntryRun<T>(es: seq<Entry<T>>, i: nat)
    requires i < |es| && es[i].Nested?
    ensures GroupCount(es[..i]) < |Runs(es)|
    ensures Runs(es)[GroupCount(es[..i])] == es[i].items
  {
    assert es[..i + 1] == es[..i] + [es[i]];
    RunsSnoc(es[..i], es[i]);
    RunsCount(es[..i]);
    RunsPrefixStable(es, i + 1, |es|);
    assert es[..|es|] == es;
    var L := |Runs(es[..i])|;
    assert Runs(es)[L] == Runs(es[..i + 1])[L];
  }

  /** A run of single items after an array (or at the start) becomes one run, item by item. */
  lemma {:induction false} RunOpened<T>(pre: seq<Entry<T>>, run: seq<Entry<T>>)
    requires run != [] && AllSingle(run) && !EndsWithSingle(pre)
    ensures Runs(pre + run) == Runs(pre) + [Singles(run)]
    decreases |run|
  {
    var init, e := run[..|run| - 1], run[|run| - 1];
    assert run == init + [Single(e.item)];
    assert pre + run == (pre + init) + [e];
    RunsSnoc(pre + init, e);
    if init == [] {
      assert pre + init == pre;
      assert Singles(run) == [e.item] by { assert run[..0] == []; }
    } else {
      RunOpened(pre, init);
      assert (pre + init)[|pre + init| - 1] == init[|init| - 1];
      SinglesSnoc(init, e.item);
      var R := Runs(pre + init);
      assert R[..|R| - 1] == Runs(pre);
    }
  }

  /** A maximal run of single items is one run, the one after the runs opened before it. */
  lemma MaximalRun<T>(es: seq<Entry<T>>, i: nat, j: nat)
    requires i < j <= |es|
    requires AllSingle(es[i..j])
    requires i == 0 || es[i - 1].Nested?
    requires j == |es| || es[j].Nested?
    ensures GroupCount(es[..i]) < |Runs(es)|
    ensures Runs(es)[GroupCount(es[..i])] == Singles(es[i..j])
  {
    assert es[..j] == es[..i] + es[i..j];
    RunOpened(es[..i], es[i..j]);
    RunsCount(es[..i]);
    var L := |Runs(es[..i])|;
    if j == |es| {
      assert es[..j] == es;
    } else {
      ClosedByArray(es, j);
      assert Runs(es)[L] == Runs(es[..j])[L];
    }
  }

  /** The runs of a prefix followed by an array are final, except that the array adds one. */
  lemma ClosedByArray<T>(es: seq<Entry<T>>, j: nat)
    requires j < |es| && es[j].Nested?
    ensures |Runs(es[..j])| < |Runs(es)|
    ensures Runs(es)[..|Runs(es[..j])|] == Runs(es[..j])
  {
    assert es[..j + 1] == es[..j] + [es[j]];
    RunsSnoc(es[..j], es[j]);
    RunsPrefixStable(es, j + 1, |es|);
    assert es[..|es|] == es;
    var R := Runs(es[..j]);
    assert Runs(es)[..|R|] == Runs(es[..j + 1])[..|R|];
  }

  /** Only the kinds of the entries decide how many groups open. */
  lemma {:induction false} GroupCountKinds<T, U>(a: seq<Entry<T>>, b: seq<Entry<U>>)
    requires |a| == |b|
    requires forall i :: 0 <= i < |a| ==> (a[i].Single? <==> b[i].Single?)
    ensures GroupCount(a) == GroupCount(b)
    decreases |a|
  {
    if a != [] {
      GroupCountKinds(a[..|a| - 1], b[..|b| - 1]);
    }
  }

  // ---------------------------------------------------------------------
  // The pass of groupToolbarItems, described by runs

  /** Every entry resolved, in order, failing on the first identifier that does not resolve; kinds are kept. */
  function PrepareEntries(catalog: Catalog, entries: seq<ToolbarItem>, h: bool): (r: Result<seq<Entry<ButtonInfo>>, GroupError>)
    ensures r.Success? ==> |r.value| == |entries|
    ensures r.Success? ==> forall i :: 0 <= i < |entries| ==> PrepareEntry(catalog, entries[i], h) == Success(r.value[i])
    ensures r.Success? ==> forall i :: 0 <= i < |entries| ==> (r.value[i].Single? <==> entries[i].Single?)
  {
    if entries == [] then Success([])
    else
      match PrepareEntries(catalog, entries[..|entries| - 1], h)
      case Failure(e) => Failure(e)
      case Success(es) =>
        (match PrepareEntry(catalog, entries[|entries| - 1], h)
         case Failure(e) => Failure(e)
         case Success(x) => Success(es + [x]))
  }

  /** The group made of a run: `setGroupState` on its items. */
  function GroupsOf(runs: seq<seq<ButtonInfo>>): seq<Group> {
    seq(|runs|, k requires 0 <= k < |runs| => SetGroupState(Group(runs[k], false)))
  }

  function ItemsOf(gs: seq<Group>): seq<seq<ButtonInfo>> {
    seq(|gs|, k requires 0 <= k < |gs| => gs[k].items)
  }

  /** The reduce state the runs description predicts. */
  function ByRuns(catalog: Catalog, entries: seq<ToolbarItem>, h: bool): Result<FoldState, GroupError> {
    match PrepareEntries(catalog, entries, h)
    case Failure(e) => Failure(e)
    case Success(es) => Success(FoldState(GroupsOf(Runs(es)), EndsWithSingle(entries)))
  }

  lemma EndsWithSingleKept(entries: seq<ToolbarItem>, es: seq<Entry<ButtonInfo>>)
    requires |es| == |entries|
    requires forall i :: 0 <= i < |entries| ==> (es[i].Single? <==> entries[i].Single?)
    ensures EndsWithSingle(es) == EndsWithSingle(entries)
  {
  }

  lemma GroupsOfAppend(R: seq<seq<ButtonInfo>>, x: seq<ButtonInfo>)
    ensures GroupsOf(R + [x]) == GroupsOf(R) + [SetGroupState(Group(x, false))]
  {
  }

  lemma GroupsOfExtendLast(R: seq<seq<ButtonInfo>>, x: ButtonInfo)
    requires |R| > 0
    ensures var k := |R| - 1;
      GroupsOf(R[..k] + [R[k] + [x]])
      == GroupsOf(R)[k := SetGroupState(Group(GroupsOf(R)[k].items + [x], GroupsOf(R)[k].hidden))]
  {
  }

  /** How the runs description grows by one entry. */
  lemma ByRunsSnoc(catalog: Catalog, entries: seq<ToolbarItem>, es: seq<Entry<ButtonInfo>>, entry: ToolbarItem, h: bool)
    requires PrepareEntries(catalog, entries, h) == Success(es)
    ensures PrepareEntry(catalog, entry, h).Failure? ==>
      ByRuns(catalog, entries + [entry], h) == Failure(PrepareEntry(catalog, entry, h).error)
    ensures PrepareEntry(catalog, entry, h).Success? ==>
      var x := PrepareEntry(catalog, entry, h).value;
      ByRuns(catalog, entries + [entry], h) == Success(FoldState(GroupsOf(Runs(es + [x])), x.Single?))
  {
    var entries' := entries + [entry];
    assert entries'[..|entries|] == entries;
  }

  /** Pushing a resolved entry agrees with how the runs grow. */
  lemma PushByRuns(es: seq<Entry<ButtonInfo>>, x: Entry<ButtonInfo>)
    requires EndsWithSingle(es) ==> |GroupsOf(Runs(es))| > 0
    ensures Push(FoldState(GroupsOf(Runs(es)), EndsWithSingle(es)), x) == FoldState(GroupsOf(Runs(es + [x])), x.Single?)
  {
    var R := Runs(es);
    RunsSnoc(es, x);
    if x.Nested? {
      GroupsOfAppend(R, x.items);
    } else if EndsWithSingle(es) {
      GroupsOfExtendLast(R, x.item);
    } else {
      GroupsOfAppend(R, [x.item]);
    }
  }

  /** One reduce step agrees with how the runs grow. */
  lemma StepByRuns(catalog: Catalog, entries: seq<ToolbarItem>, es: seq<Entry<ButtonInfo>>,
                   entry: ToolbarItem, h: bool)
    requires PrepareEntries(catalog, entries, h) == Success(es)
    requires Fold(catalog, entries, h) == Success(FoldState(GroupsOf(Runs(es)), EndsWithSingle(entries)))
    ensures var st := Fold(catalog, entries, h).value;
      ByRuns(catalog, entries + [entry], h) == Step(catalog, st, entry, h)
  {
    EndsWithSingleKept(entries, es);
    ByRunsSnoc(catalog, entries, es, entry, h);
    if PrepareEntry(catalog, entry, h).Success? {
      PushByRuns(es, PrepareEntry(catalog, entry, h).value);
    }
  }

  /**
   * The reduce of `groupToolbarItems` is the runs description: it fails
   * exactly when resolving the entries in order fails, with the same error;
   * otherwise its groups are the runs of the resolved entries, each with its
   * flag set, and `needNested` says whether the last entry was a single item.
   */
  lemma {:induction false} FoldByRuns(catalog: Catalog, entries: seq<ToolbarItem>, h: bool)
    ensures Fold(catalog, entries, h) == ByRuns(catalog, entries, h)
    decreases |entries|
  {
    if entries == [] {
      assert GroupsOf([]) == [];
    } else {
      var init, entry := entries[..|entries| - 1], entries[|entries| - 1];
      assert entries == init + [entry];
      FoldByRuns(catalog, init, h);
      assert Fold(catalog, init, h).Success? ==>
        Fold(catalog, entries, h) == Step(catalog, Fold(catalog, init, h).value, entry, h);
      if PrepareEntries(catalog, init, h).Success? {
        StepByRuns(catalog, init, PrepareEntries(catalog, init, h).value, entry, h);
      }
    }
  }

  /** What `groupToolbarItems` returns, described by runs. */
  lemma GroupedByRuns(catalog: Catalog, entries: seq<ToolbarItem>, h: bool)
    ensures Grouped(catalog, entries, h) ==
      match PrepareEntries(catalog, entries, h)
      case Failure(e) => Failure(e)
      case Success(es) => Success(GroupsOf(Runs(es)))
  {
    FoldByRuns(catalog, entries, h);
  }

  // ---------------------------------------------------------------------
  // Content and order

  lemma {:induction false} PrepareAllAppend(catalog: Catalog, a: seq<ItemSpec>, b: seq<ItemSpec>, h: bool)
    ensures PrepareAll(catalog, a + b, h) ==
      if PrepareAll(catalog, a, h).Failure? then PrepareAll(catalog, a, h)
      else if PrepareAll(catalog, b, h).Failure? then PrepareAll(catalog, b, h)
      else Success(PrepareAll(catalog, a, h).value + PrepareAll(catalog, b, h).value)
    decreases |b|
  {
    if b == [] {
      assert a + b == a;
      assert PrepareAll(catalog, b, h) == Success([]);
      if PrepareAll(catalog, a, h).Success? {
        assert PrepareAll(catalog, a, h).value + [] == PrepareAll(catalog, a, h).value;
      }
    } else {
      var b', y := b[..|b| - 1], b[|b| - 1];
      PrepareAllAppend(catalog, a, b', h);
      assert (a + b)[..|a + b| - 1] == a + b';
      assert (a + b)[|a + b| - 1] == y;
      if PrepareAll(catalog, a, h).Success? && PrepareAll(catalog, b', h).Success? && Prepare(catalog, y, h).Success? {
        var x, z, w := PrepareAll(catalog, a, h).value, PrepareAll(catalog, b', h).value, Prepare(catalog, y, h).value;
        assert x + (z + [w]) == (x + z) + [w];
      }
    }
  }

  lemma PrepareEntryAsAll(catalog: Catalog, entry: ToolbarItem, h: bool)
    ensures PrepareEntry(catalog, entry, h).Failure? ==>
      PrepareAll(catalog, EntryMembers(entry), h) == Failure(PrepareEntry(catalog, entry, h).error)
    ensures PrepareEntry(catalog, entry, h).Success? ==>
      PrepareAll(catalog, EntryMembers(entry), h) == Success(EntryMembers(PrepareEntry(catalog, entry, h).value))
  {
    if entry.Single? {
      assert [entry.item][..0] == [];
      var p := Prepare(catalog, entry.item, h);
      if p.Success? {
        assert PrepareAll(catalog, [entry.item], h) == Success([] + [p.value]);
        assert [] + [p.value] == [p.value];
        assert PrepareEntry(catalog, entry, h) == Success(Single(p.value));
      }
    }
  }

  /** Resolving entry by entry is resolving the flattened list item by item. */
  lemma {:induction false} PrepareEntriesMembers(catalog: Catalog, entries: seq<ToolbarItem>, h: bool)
    ensures PrepareEntries(catalog, entries, h).Failure? ==>
      PrepareAll(catalog, Members(entries), h) == Failure(PrepareEntries(catalog, entries, h).error)
    ensures PrepareEntries(catalog, entries, h).Success? ==>
      PrepareAll(catalog, Members(entries), h) == Success(Members(PrepareEntries(catalog, entries, h).value))
    decreases |entries|
  {
    if entries != [] {
      var init, entry := entries[..|entries| - 1], entries[|entries| - 1];
      PrepareEntriesMembers(catalog, init, h);
      assert Members(entries) == Members(init) + EntryMembers(entry);
      PrepareAllAppend(catalog, Members(init), EntryMembers(entry), h);
      PrepareEntryAsAll(catalog, entry, h);
      if PrepareEntries(catalog, entries, h).Success? {
        var es := PrepareEntries(catalog, init, h).value;
        var x := PrepareEntry(catalog, entry, h).value;
        assert PrepareEntries(catalog, entries, h).value == es + [x];
        assert (es + [x])[..|es|] == es;
      }
    }
  }

  lemma ItemsOfGroupsOf(R: seq<seq<ButtonInfo>>)
    ensures ItemsOf(GroupsOf(R)) == R
  {
  }

  /**
   * Grouping neither loses, adds nor reorders anything: it fails exactly when
   * resolving the flattened entries in order fails, on the same identifier,
   * and otherwise the groups' items, concatenated, are exactly the flattened
   * entries, each resolved, in input order.
   */
  lemma GroupedContent(catalog: Catalog, entries: seq<ToolbarItem>, h: bool)
    ensures Grouped(catalog, entries, h).Success? <==> PrepareAll(catalog, Members(entries), h).Success?
    ensures Grouped(catalog, entries, h).Failure? ==>
      Grouped(catalog, entries, h).error == PrepareAll(catalog, Members(entries), h).error
    ensures Grouped(catalog, entries, h).Success? ==>
      Concat(ItemsOf(Grouped(catalog, entries, h).value)) == PrepareAll(catalog, Members(entries), h).value
  {
    GroupedByRuns(catalog, entries, h);
    PrepareEntriesMembers(catalog, entries, h);
    if PrepareEntries(catalog, entries, h).Success? {
      var es := PrepareEntries(catalog, entries, h).value;
      ItemsOfGroupsOf(Runs(es));
      RunsConcat(es);
    }
  }

  /** The resolved items of a stretch of single entries are that stretch's identifiers, resolved in order. */
  lemma PreparedRun(catalog: Catalog, entries: seq<ToolbarItem>, es: seq<Entry<ButtonInfo>>, h: bool, i: nat, j: nat)
    requires PrepareEntries(catalog, entries, h) == Success(es)
    requires i <= j <= |entries| && AllSingle(entries[i..j])
    ensures AllSingle(es[i..j])
    ensures PrepareAll(catalog, Singles(entries[i..j]), h) == Success(Singles(es[i..j]))
  {
    forall p | 0 <= p < j - i
      ensures es[i..j][p].Single?
    {
      assert entries[i..j][p] == entries[i + p];
    }
    var specs := Singles(entries[i..j]);
    forall p | 0 <= p < |specs|
      ensures Resolve(catalog, specs[p]).Some?
      ensures Singles(es[i..j])[p] == ToggleScrollSyncState(Resolve(catalog, specs[p]).value, h)
    {
      assert entries[i..j][p] == entries[i + p];
      assert PrepareEntry(catalog, entries[i + p], h) == Success(es[i + p]);
    }
    var r := PrepareAll(catalog, specs, h);
    assert r.Success?;
    assert |r.value| == |Singles(es[i..j])|;
    assert r.value == Singles(es[i..j]);
  }

  /**
   * An array in the input becomes exactly one group, holding its resolved
   * items in order and flagged by `setGroupState`; it is the group right
   * after those opened by the entries before it.
   */
  lemma GroupedArrayEntry(catalog: Catalog, entries: seq<ToolbarItem>, h: bool, i: nat)
    requires i < |entries| && entries[i].Nested?
    requires Grouped(catalog, entries, h).Success?
    ensures PrepareAll(catalog, entries[i].items, h).Success?
    ensures GroupCount(entries[..i]) < |Grouped(catalog, entries, h).value|
    ensures Grouped(catalog, entries, h).value[GroupCount(entries[..i])] ==
      SetGroupState(Group(PrepareAll(catalog, entries[i].items, h).value, false))
  {
    GroupedByRuns(catalog, entries, h);
    var es := PrepareEntries(catalog, entries, h).value;
    ArrayEntryRun(es, i);
    GroupCountKinds(es[..i], entries[..i]);
  }

  /**
   * A maximal run of single items in the input (preceded by an array or the
   * start, followed by an array or the end) becomes exactly one group,
   * holding the run's resolved items in order.
   */
  lemma GroupedMaximalRun(catalog: Catalog, entries: seq<ToolbarItem>, h: bool, i: nat, j: nat)
    requires i < j <= |entries|
    requires AllSingle(entries[i..j])
    requires i == 0 || entries[i - 1].Nested?
    requires j == |entries| || entries[j].Nested?
    requires Grouped(catalog, entries, h).Success?
    ensures PrepareAll(catalog, Singles(entries[i..j]), h).Success?
    ensures GroupCount(entries[..i]) < |Grouped(catalog, entries, h).value|
    ensures Grouped(catalog, entries, h).value[GroupCount(entries[..i])] ==
      SetGroupState(Group(PrepareAll(catalog, Singles(entries[i..j]), h).value, false))
  {
    GroupedByRuns(catalog, entries, h);
    var es := PrepareEntries(catalog, entries, h).value;
    PreparedRun(catalog, entries, es, h, i, j);
    MaximalRun(es, i, j);
    GroupCountKinds(es[..i], entries[..i]);
  }

  /** The shape `['bold', 'italic', ['hr'], 'strike']` gives three groups. */
  lemma RunsExample<T>(a: T, b: T, c: T, d: T)
    ensures Runs([Single(a), Single(b), Nested([c]), Single(d)]) == [[a, b], [c], [d]]
  {
    var es := [Single(a), Single(b), Nested([c]), Single(d)];
    MaximalRun(es, 0, 2);
    ArrayEntryRun(es, 2);
    MaximalRun(es, 3, 4);
    RunsCount(es);
    assert es[..0] == [] && es[..2] == [Single(a), Single(b)] && es[..3] == es[..2] + [Nested([c])];
    assert Singles(es[0..2]) == [a, b];
    assert Singles(es[3..4]) == [d];
  }

  /** An empty array in the input gives an empty group, and `setGroupState` marks it hidden. */
  lemma EmptyArrayGroupHidden(catalog: Catalog, entries: seq<ToolbarItem>, h: bool, i: nat)
    requires i < |entries| && entries[i] == Nested([])
    requires Grouped(catalog, entries, h).Success?
    ensures GroupCount(entries[..i]) < |Grouped(catalog, entries, h).value|
    ensures Grouped(catalog, entries, h).value[GroupCount(entries[..i])] == Group([], true)
  {
    GroupedArrayEntry(catalog, entries, h, i);
  }
}
