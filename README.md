# Toolbar item factory and virtual-node builder, modelled in Dafny

This project models two parts of the editor's new UI layer:

- the **toolbar item factory**. This covers:
  - the lazily built catalog of the 18 built-in toolbar buttons (`createToolbarItemInfo`, `createDefaultToolbarItemInfo`);
  - the grouping of a toolbar configuration into groups with a "hidden" flag (`groupToolbarItems`, `setGroupState`);
  - the in-place re-application of the scroll-sync visibility rule (`toggleScrollSync`);
  - the popup-layer descriptors (`createLayerInfo`).
- the **tag function `h`** of the virtual-node template layer. It builds a node, turns bare strings into text nodes and flattens array children by exactly one level (`createTextNode`, `h`).

Modules:

- `Wrappers`: `Option` (JavaScript `undefined`) and `Result` (an escaping exception).
- `Template` (`template.dfy`): virtual nodes, `CreateTextNode`, the method `H` with its loop, and the one-level flattening `Flatten` it is proved against.
- `ToolbarCatalog` (`toolbar_catalog.dfy`): button descriptors and the 18-entry catalog. It has the decorating loop `AddIconClass`. The class `ToolbarItemRegistry` holds the module-level cache `toolbarItemInfoMap` as a field and builds it on first use.
- `ToolbarGrouping` (`toolbar_grouping.dfy`):
  - the reduce of `groupToolbarItems`, as a method over the registry;
  - its specification as a left fold (`Fold`/`Grouped`);
  - `setGroupState`;
  - `toggleScrollSync` as a method over an array of groups, proved against `Retoggled`.
- `GroupingRuns` (`grouping_runs.dfy`): an independent description of the grouping by **maximal runs**. Every array is a group of its own, and every maximal stretch of single items is one group. It includes the theorem that the reduce computes exactly this.
- `ToolbarLayers` (`toolbar_layers.dfy`): `createLayerInfo` as a closed dispatch over the five layer kinds.

Modelling choices:

- Descriptors and groups are values. The source mutates them in place, and the mutation is mirrored by returning or storing the new value.
- An identifier that the catalog does not contain makes `createToolbarItemInfo` return `undefined`. `groupToolbarItems` then fails when it assigns `item.hidden` on that `undefined`. The model makes this failure explicit: `Failure(Unresolved(spec))` names the first such identifier in evaluation order. The assignment that fails is `item.hidden = …` at `toolbarItemFactory.ts:221`.
- The layer switch knows exactly `heading`, `link`, `image`, `table` and `customLayer`.
- `i18n.get(key)` is modelled by the label `Translated(key)`, because the translation tables are outside the model.
- A render closure is modelled by the body component it renders. The custom layer's body captures the caller's layer options.

## Model

| member | source | states |
|---|---|---|
| Template.CreateTextNode | apps/editor/src/new/vdom/template.ts:6-8 | the result is a `TEXT_NODE` node with no children whose only prop is `nodeValue`, holding the given text |
| Template.TextNodeInjective | apps/editor/src/new/vdom/template.ts:6-8 | two text nodes are equal exactly when their texts are equal |
| Template.H | apps/editor/src/new/vdom/template.ts:10-26 | the node has the given type; its props are the given props, or `{}` when none are passed; its children are the one-level flattening of the children, with array elements spliced in unchanged and bare strings made text nodes |
| Template.FlattenAppend | apps/editor/src/new/vdom/template.ts:13-21 | flattening distributes over concatenation of the children list |
| Template.FlattenLength | apps/editor/src/new/vdom/template.ts:13-21 | the flattened list has one slot per non-array child plus one per element of each array child |
| Template.FlattenAt | apps/editor/src/new/vdom/template.ts:13-21 | the k-th element contributed by child i sits right after everything contributed by children 0..i-1, so order is kept |
| Template.TopLevelChild | apps/editor/src/new/vdom/template.ts:18-20 | a non-array child lands at its position, as a text node when it is a string and unchanged otherwise |
| Template.FragmentElement | apps/editor/src/new/vdom/template.ts:14-17 | each element of an array child is spliced in unchanged, in order |
| Template.FlattenNormalized | apps/editor/src/new/vdom/template.ts:13-21 | a list with no arrays and no bare strings is left as it is |
| Template.FlattenIdempotent | apps/editor/src/new/vdom/template.ts:13-21 | when array children hold only nodes, flattening yields a normalized list, and flattening again changes nothing |
| Template.OneLevelOnly | apps/editor/src/new/vdom/template.ts:14-17 | strings inside an array child stay strings, and an array nested two deep stays an array: the flattening goes exactly one level deep |
| ToolbarCatalog.BaseCatalog | apps/editor/src/new/toolbarItemFactory.ts:32-151 | the object literal before decoration; scroll sync has class `tui-scrollsync`, command `toggleScrollSync`, and `active` and `toggle` set |
| ToolbarCatalog.CatalogKeysExact | apps/editor/src/new/toolbarItemFactory.ts:32-151 | the catalog has exactly 18 distinct keys, in declaration order |
| ToolbarCatalog.BaseCatalogEntries | apps/editor/src/new/toolbarItemFactory.ts:32-151 | every entry is named after its key and not hidden; scroll sync has class `tui-scrollsync` |
| ToolbarCatalog.DecorateStep | apps/editor/src/new/toolbarItemFactory.ts:153-157 | one pass of the loop body decorates exactly the visited key, skipping scroll sync |
| ToolbarCatalog.DecorateDone | apps/editor/src/new/toolbarItemFactory.ts:153-157 | once every key has been visited, the map is the fully decorated catalog |
| ToolbarCatalog.AddIconClass | apps/editor/src/new/toolbarItemFactory.ts:153-158 | visiting every key once appends ` tui-toolbar-icons` to every class name except scroll sync's |
| ToolbarCatalog.CreateDefaultToolbarItemInfo | apps/editor/src/new/toolbarItemFactory.ts:31-159 | returns the default catalog: the 18 descriptors, decorated |
| ToolbarCatalog.DefaultCatalogShape | apps/editor/src/new/toolbarItemFactory.ts:31-159 | the default catalog has exactly the 18 keys; each entry is named after its key and not hidden; every class name except scroll sync's ends in the icon class; scroll sync's stays `tui-scrollsync` |
| ToolbarCatalog.Resolve | apps/editor/src/new/toolbarItemFactory.ts:25-28 | a descriptor comes back as it is; an identifier resolves exactly when it is a key of the catalog, and then to that key's entry |
| ToolbarCatalog.ResolveDefault | apps/editor/src/new/toolbarItemFactory.ts:22-29 | a descriptor passed in is returned unchanged; an identifier resolves exactly when it is one of the 18 keys, and then to the entry of that name |
| ToolbarCatalog.ToolbarItemRegistry.constructor | apps/editor/src/new/toolbarItemFactory.ts:20 | the cache starts empty |
| ToolbarCatalog.ToolbarItemRegistry.CreateToolbarItemInfo | apps/editor/src/new/toolbarItemFactory.ts:20-29 | the cache is built on first use only, and then holds the default catalog; the result is the lookup of the identifier, or the descriptor itself |
| ToolbarGrouping.ToggleScrollSyncState | apps/editor/src/new/toolbarItemFactory.ts:220-223 | `hidden` becomes true exactly for scroll sync when scroll sync is hidden, whatever it was before; every other field is unchanged |
| ToolbarGrouping.CountHidden | apps/editor/src/new/toolbarItemFactory.ts:214-216 | the number of hidden items is at most the group size, and equals it exactly when every item is hidden |
| ToolbarGrouping.SetGroupState | apps/editor/src/new/toolbarItemFactory.ts:214-216 | items unchanged; the group is hidden exactly when all its items are hidden (so an empty group is hidden) |
| ToolbarGrouping.PrepareAll | apps/editor/src/new/toolbarItemFactory.ts:220-228 | mapping identifiers succeeds exactly when all resolve; it then has one descriptor per identifier, resolved, with `hidden` set by the scroll-sync rule; otherwise it fails on the first unresolved identifier |
| ToolbarGrouping.PrepareEntry | apps/editor/src/new/toolbarItemFactory.ts:226-233 | resolving an entry keeps its kind (array or single), and its descriptors follow the scroll-sync rule |
| ToolbarGrouping.Push | apps/editor/src/new/toolbarItemFactory.ts:226-239 | after a push, `needNested` implies there is a last group, so the group a single item joins always exists |
| ToolbarGrouping.PushConsistent | apps/editor/src/new/toolbarItemFactory.ts:226-239 | pushing keeps every group consistent: items follow the rule and the flag says "all hidden" |
| ToolbarGrouping.Step | apps/editor/src/new/toolbarItemFactory.ts:225-241 | one reduce step keeps all groups consistent and keeps the `needNested` invariant |
| ToolbarGrouping.Fold | apps/editor/src/new/toolbarItemFactory.ts:225-241 | after any prefix of the reduce, every group is consistent and `needNested` implies a last group exists |
| ToolbarGrouping.FoldFailurePersists | apps/editor/src/new/toolbarItemFactory.ts:225-241 | once the reduce has failed on a prefix, the whole call fails with that error |
| ToolbarGrouping.PrepareAllFailurePersists | apps/editor/src/new/toolbarItemFactory.ts:228 | once the map over an array has failed on a prefix, the whole map fails with that error |
| ToolbarGrouping.PrepareGroup | apps/editor/src/new/toolbarItemFactory.ts:228 | the loop over an array entry computes exactly its resolved, rule-applied descriptors, or the first failure |
| ToolbarGrouping.GroupStep | apps/editor/src/new/toolbarItemFactory.ts:225-241 | the reduce callback, with its three branches and the `if (group)` guard, computes one step of the fold |
| ToolbarGrouping.GroupToolbarItems | apps/editor/src/new/toolbarItemFactory.ts:218-242 | the reduce over the configuration computes exactly the fold's groups, or its failure |
| ToolbarGrouping.ToggleScrollSync | apps/editor/src/new/toolbarItemFactory.ts:244-251 | in place, every item's `hidden` becomes "is scroll sync and hidden scroll sync", and every group's flag is recomputed |
| ToolbarGrouping.RetoggledConsistent | apps/editor/src/new/toolbarItemFactory.ts:244-251 | after re-toggling, every group is consistent for the new flag |
| ToolbarGrouping.RetoggledShape | apps/editor/src/new/toolbarItemFactory.ts:244-251 | re-toggling keeps the number of groups, their sizes, and every item except its `hidden` field |
| ToolbarGrouping.RetoggleConsistentUnchanged | apps/editor/src/new/toolbarItemFactory.ts:244-251 | groups already consistent for the flag are left unchanged |
| ToolbarGrouping.RetoggleIdempotent | apps/editor/src/new/toolbarItemFactory.ts:244-251 | toggling twice with the same flag equals toggling once |
| ToolbarGrouping.PrepareAllRetoggle | apps/editor/src/new/toolbarItemFactory.ts:220-228 | mapping an array under another flag fails identically, or gives the same descriptors with the rule re-applied |
| ToolbarGrouping.FoldRetoggle | apps/editor/src/new/toolbarItemFactory.ts:218-242 | the reduce under another flag gives the same `needNested` and the re-toggled groups |
| ToolbarGrouping.RegroupIsRetoggle | apps/editor/src/new/toolbarItemFactory.ts:218-251 | grouping under flag h' succeeds exactly when grouping under h does, and then equals `toggleScrollSync(h')` applied to the groups built under h |
| GroupingRuns.RunsConcat | apps/editor/src/new/toolbarItemFactory.ts:225-241 | the runs, concatenated, are the entries flattened by one level: nothing is lost, added or moved |
| GroupingRuns.RunsCount | apps/editor/src/new/toolbarItemFactory.ts:225-241 | there is one run per array plus one per single item that does not follow a single item |
| GroupingRuns.ArrayEntryRun | apps/editor/src/new/toolbarItemFactory.ts:226-228 | an array entry is a run by itself, at the index equal to the number of groups opened before it |
| GroupingRuns.MaximalRun | apps/editor/src/new/toolbarItemFactory.ts:229-233 | a maximal stretch of single items is exactly one run, at the index equal to the number of groups opened before it |
| GroupingRuns.PrepareEntries | apps/editor/src/new/toolbarItemFactory.ts:226-233 | resolving entry by entry keeps the count and kinds of the entries and agrees with resolving each entry |
| GroupingRuns.FoldByRuns | apps/editor/src/new/toolbarItemFactory.ts:225-241 | the reduce equals the runs description: the same failure, or one group per run with its flag set, and `needNested` true exactly when the last entry is a single item |
| GroupingRuns.GroupedByRuns | apps/editor/src/new/toolbarItemFactory.ts:218-242 | `groupToolbarItems` returns one `setGroupState` group per run of the resolved entries |
| GroupingRuns.PrepareAllAppend | apps/editor/src/new/toolbarItemFactory.ts:228 | mapping a concatenation is the first failure, or the concatenation of the results |
| GroupingRuns.PrepareEntriesMembers | apps/editor/src/new/toolbarItemFactory.ts:225-241 | resolving entry by entry equals resolving the flattened list in order, including which identifier a failure names |
| GroupingRuns.GroupedContent | apps/editor/src/new/toolbarItemFactory.ts:218-242 | grouping fails exactly when some flattened identifier is unknown, on the first one; otherwise the groups' items, concatenated, are the flattened entries, resolved, in input order |
| GroupingRuns.GroupedArrayEntry | apps/editor/src/new/toolbarItemFactory.ts:226-239 | an array entry becomes exactly one group, holding its resolved items in order with its flag set |
| GroupingRuns.GroupedMaximalRun | apps/editor/src/new/toolbarItemFactory.ts:229-239 | a maximal run of single items becomes exactly one group, holding their resolved items in order with its flag set |
| GroupingRuns.RunsExample | apps/editor/src/new/toolbarItemFactory.ts:225-241 | the shape `[a, b, [c], d]` gives the three groups `[a, b]`, `[c]`, `[d]` |
| GroupingRuns.EmptyArrayGroupHidden | apps/editor/src/new/toolbarItemFactory.ts:214-228 | an empty array entry gives an empty group, which is marked hidden |
| ToolbarLayers.ParseLayerKind | apps/editor/src/new/toolbarItemFactory.ts:171-211 | a type string names a kind exactly when it is one of the five case labels |
| ToolbarLayers.KindNameRoundTrip | apps/editor/src/new/toolbarItemFactory.ts:171-211 | parsing a kind's case label gives that kind back |
| ToolbarLayers.CreateLayerInfo | apps/editor/src/new/toolbarItemFactory.ts:168-212 | defined exactly for the five case labels. A built-in kind has exactly render, class name, element and position fields, plus a header text for link and image only. `customLayer` has render, element and position, with the caller's options spread over them, so their fields win |
| ToolbarLayers.BuiltInLayerIgnoresOptions | apps/editor/src/new/toolbarItemFactory.ts:168-201 | the four built-in layers do not depend on the caller's layer options |
| ToolbarLayers.BuiltInLayerLooks | apps/editor/src/new/toolbarItemFactory.ts:172-201 | the fixed class names and the header texts `Insert link` and `Insert image` |
| ToolbarLayers.CustomLayerWithoutOptions | apps/editor/src/new/toolbarItemFactory.ts:202-208 | with no layer options, spreading adds nothing: a custom layer is exactly render, element and position |

## Left out

- Aliasing: descriptors, groups and arrays are values. The source returns the catalog's own descriptor objects, so `groupToolbarItems` writes `hidden` into the shared catalog entries. The same descriptor can sit in several groups, and a later call can change the items of groups returned earlier without recomputing their flags. None of this sharing is modelled.
- ToolbarCatalog.ToolbarItemRegistry.CreateToolbarItemInfo: a string key that `Object.prototype` supplies (for example `toString`) is treated as unknown, while the source would return the inherited property.
- ToolbarCatalog.BaseCatalog: the catalog's object literals have no `hidden` property, so a freshly looked-up entry has `hidden` undefined until a grouping pass writes it. The model gives every catalog entry `hidden = false`, and `BaseCatalogEntries` and `DefaultCatalogShape` state that value.
- ToolbarGrouping.GroupToolbarItems: a caller-supplied descriptor is modelled by its known fields. Any extra fields are not carried, and an unset `hidden` is `false`.
- Translations: `i18n.get` is replaced by the label of its key. The i18n module is not part of this model.
- Rendering: the render closures, the body components (`HeadingLayerBody` and the others, `CustomLayer`) and the read of `layer.layerBody` at render time are not modelled. A custom layer without options would fail only when rendered.
- Template.H: `html.bind(h)` and the `htm` template parser are not part of this model. The `VNode` class is a plain record. A `null` props argument is not represented; only a missing one, which becomes `{}`.
- DOM elements, component classes and positions are opaque values.
- Concurrency does not apply: the source is single-threaded.
