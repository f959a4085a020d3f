/**
 * The toolbar item registry of `toolbarItemFactory.ts`: the default button
 * descriptors, built once on first use, and `createToolbarItemInfo`, which
 * resolves an item identifier against them.
 */
module ToolbarCatalog {
  import opened Wrappers

  /** `i18n.get(key)`: the translated string for a message key, left uninterpreted. */
  datatype Label = Translated(key: string)

  /**
   * A toolbar button descriptor (`ToolbarButtonInfo`). Optional fields the
   * object literals of `toolbarItemFactory.ts` leave out are `None`; an unset `hidden` reads as `false`.
   */
  datatype ButtonInfo = ButtonInfo(
    name: string,
    className: string,
    tooltip: Label,
    activeTooltip: Option<Label>,
    command: Option<string>,
    state: Option<string>,
    active: Option<bool>,
    toggle: Option<bool>,
    hidden: bool)

  /** What a caller names a toolbar item by: an identifier, or its own descriptor. */
  datatype ItemSpec = Named(name: string) | Options(info: ButtonInfo)

  /** A catalog of descriptors by identifier (`Record<string, ToolbarItemInfo>`). */
  type Catalog = map<string, ButtonInfo>

  const ScrollSyncName := "scrollSync"
  const IconClass := " tui-toolbar-icons"

  /** An ordinary button: no active tooltip, no active or toggle flag. */
  function Button(name: string, className: string, tooltip: string,
                  command: Option<string>, state: Option<string>): ButtonInfo
  {
    ButtonInfo(name, className, Translated(tooltip), None, command, state, None, None, false)
  }

  /** The catalog's keys, in the order the object literal declares them. */
  const CatalogKeys: seq<string> := [
    "heading", "bold", "italic", "strike", "hr", "quote", "ul", "ol", "task",
    "table", "image", "link", "code", "codeblock", "indent", "outdent",
    "scrollSync", "more"]

  /** The object literal of `createDefaultToolbarItemInfo`, before the icon class is added. */
  function BaseCatalog(): (m: map<string, ButtonInfo>)
    ensures ScrollSyncName in m && m[ScrollSyncName].className == "tui-scrollsync"
    ensures m[ScrollSyncName].command == Some("toggleScrollSync")
    ensures m[ScrollSyncName].active == Some(true) && m[ScrollSyncName].toggle == Some(true)
  {
    map[
      "heading" := Button("heading", "tui-heading", "Headings", None, Some("heading")),
      "bold" := Button("bold", "tui-bold", "Bold", Some("bold"), Some("strong")),
      "italic" := Button("italic", "tui-italic", "Italic", Some("italic"), Some("emph")),
      "strike" := Button("strike", "tui-strike", "Strike", Some("strike"), Some("strike")),
      "hr" := Button("hr", "tui-hrline", "Line", Some("hr"), Some("thematicBreak")),
      "quote" := Button("quote", "tui-quote", "Blockquote", Some("blockQuote"), Some("blockQuote")),
      "ul" := Button("ul", "tui-ul", "Unordered list", Some("bulletList"), Some("bulletList")),
      "ol" := Button("ol", "tui-ol", "Ordered list", Some("orderedList"), Some("orderedList")),
      "task" := Button("task", "tui-task", "Task", Some("taskList"), Some("taskList")),
      "table" := Button("table", "tui-table", "Insert table", None, Some("table")),
      "image" := Button("image", "tui-image", "Insert image", None, None),
      "link" := Button("link", "tui-link", "Insert link", None, None),
      "code" := Button("code", "tui-code", "Code", Some("code"), Some("code")),
      "codeblock" := Button("codeblock", "tui-codeblock", "Insert CodeBlock", Some("codeBlock"), Some("codeBlock")),
      "indent" := Button("indent", "tui-indent", "Indent", Some("indent"), None),
      "outdent" := Button("outdent", "tui-outdent", "Outdent", Some("outdent"), None),
      "scrollSync" := ButtonInfo("scrollSync", "tui-scrollsync", Translated("Auto scroll disabled"),
                                 Some(Translated("Auto scroll enabled")), Some("toggleScrollSync"),
                                 None, Some(true), Some(true), false),
      "more" := Button("more", "tui-more", "More", None, None)
    ]
  }

  /** The one-off transformation applied to each entry: every key but `scrollSync` gets the icon class. */
  function Decorated(key: string, info: ButtonInfo): ButtonInfo {
    if key != ScrollSyncName then info.(className := info.className + IconClass) else info
  }

  /** Every entry of `base`, decorated. */
  function DecoratedAll(base: map<string, ButtonInfo>): map<string, ButtonInfo> {
    map k | k in base :: Decorated(k, base[k])
  }

  /** The built catalog. */
  function DefaultCatalog(): map<string, ButtonInfo> {
    DecoratedAll(BaseCatalog())
  }

  /** `base` part-way through the build loop: the keys in `done` are decorated. */
  function PartlyDecorated(base: map<string, ButtonInfo>, done: seq<string>): map<string, ButtonInfo> {
    map k | k in base :: if k in done then Decorated(k, base[k]) else base[k]
  }

  /** The declared keys are exactly the catalog's keys, eighteen of them, each once. */
  lemma CatalogKeysExact()
    ensures |CatalogKeys| == 18
    ensures Distinct(CatalogKeys)
    ensures forall k :: k in BaseCatalog() <==> k in CatalogKeys
  {
  }

  /** One turn of the build loop decorates one more key and leaves the others alone. */
  lemma DecorateStep(base: map<string, ButtonInfo>, done: seq<string>, name: string)
    requires name in base && name !in done
    ensures var m := PartlyDecorated(base, done);
      (if name != ScrollSyncName then m[name := m[name].(className := m[name].className + IconClass)] else m)
      == PartlyDecorated(base, done + [name])
  {
    var m := PartlyDecorated(base, done);
    var m' := if name != ScrollSyncName then m[name := m[name].(className := m[name].className + IconClass)] else m;
    forall k | k in base ensures k in m' && m'[k] == PartlyDecorated(base, done + [name])[k] {
      assert k in done + [name] <==> k in done || k == name;
    }
  }

  /** Once every key has been visited, the whole map is decorated. */
  lemma DecorateDone(base: map<string, ButtonInfo>, done: seq<string>)
    requires forall k :: k in base ==> k in done
    ensures PartlyDecorated(base, done) == DecoratedAll(base)
  {
  }

  /** Keys each listed once. */
  predicate Distinct(keys: seq<string>) {
    forall i, j :: 0 <= i < j < |keys| ==> keys[i] != keys[j]
  }

  /**
   * The loop of `createDefaultToolbarItemInfo` over `Object.keys(itemInfoMap)`:
   * every key but `scrollSync` gets the icon class appended to its class name.
   */
  method AddIconClass(itemInfoMap: map<string, ButtonInfo>, keys: seq<string>) returns (m: map<string, ButtonInfo>)
    requires Distinct(keys)
    requires forall k :: k in itemInfoMap <==> k in keys
    ensures m == DecoratedAll(itemInfoMap)
  {
    m := itemInfoMap;
    assert m == PartlyDecorated(itemInfoMap, []);
    for i := 0 to |keys|
      invariant m == PartlyDecorated(itemInfoMap, keys[..i])
    {
      var name := keys[i];
      assert keys[..i + 1] == keys[..i] + [name];
      DecorateStep(itemInfoMap, keys[..i], name);
      if name != ScrollSyncName {
        m := m[name := m[name].(className := m[name].className + IconClass)];
      }
    }
    assert keys[..|keys|] == keys;
    DecorateDone(itemInfoMap, keys);
  }

  /** `createDefaultToolbarItemInfo`. */
  method CreateDefaultToolbarItemInfo() returns (m: map<string, ButtonInfo>)
    ensures m == DefaultCatalog()
  {
    CatalogKeysExact();
    m := AddIconClass(BaseCatalog(), CatalogKeys);
  }

  /** Each declared entry is named by its key and starts out not hidden. */
  lemma BaseCatalogEntries()
    ensures forall k :: k in BaseCatalog() ==> BaseCatalog()[k].name == k && !BaseCatalog()[k].hidden
    ensures BaseCatalog()[ScrollSyncName].className == "tui-scrollsync"
  {
  }

  /**
   * The built catalog holds the eighteen keys; each entry is named by its key;
   * every class name but `scrollSync`'s is the declared one followed by the
   * icon class, and `scrollSync` keeps its own.
   */
  lemma DefaultCatalogShape()
    ensures forall k :: k in DefaultCatalog() <==> k in CatalogKeys
    ensures forall k :: k in DefaultCatalog() ==> DefaultCatalog()[k].name == k
    ensures forall k :: k in DefaultCatalog() && k != ScrollSyncName ==>
      DefaultCatalog()[k].className == BaseCatalog()[k].className + IconClass
    ensures DefaultCatalog()[ScrollSyncName].className == "tui-scrollsync"
    ensures forall k :: k in DefaultCatalog() ==> !DefaultCatalog()[k].hidden
  {
    CatalogKeysExact();
    BaseCatalogEntries();
  }

  /**
   * The lookup branch of `createToolbarItemInfo`: an identifier is looked up
   * (absent when no entry has that key); a descriptor comes back as it is.
   */
  function Resolve(catalog: Catalog, spec: ItemSpec): (r: Option<ButtonInfo>)
    ensures spec.Options? ==> r == Some(spec.info)
    ensures spec.Named? ==> (r.Some? <==> spec.name in catalog)
    ensures spec.Named? && r.Some? ==> r.value == catalog[spec.name]
  {
    match spec
    case Named(n) => if n in catalog then Some(catalog[n]) else None
    case Options(info) => Some(info)
  }

  /**
   * Against the default catalog: a caller's descriptor is returned unchanged,
   * with nothing merged in; an identifier resolves exactly when it is one of
   * the eighteen keys, to the entry of that name.
   */
  lemma ResolveDefault(spec: ItemSpec)
    ensures spec.Options? ==> Resolve(DefaultCatalog(), spec) == Some(spec.info)
    ensures spec.Named? ==> (Resolve(DefaultCatalog(), spec).Some? <==> spec.name in CatalogKeys)
    ensures spec.Named? && Resolve(DefaultCatalog(), spec).Some? ==>
      Resolve(DefaultCatalog(), spec).value.name == spec.name
  {
    DefaultCatalogShape();
  }

  /**
   * The module-level cache `toolbarItemInfoMap`: `None` until the first
   * resolution builds the catalog. `builds` counts how often it was built.
   */
  class ToolbarItemRegistry {
    var infoMap: Option<map<string, ButtonInfo>>
    ghost var builds: nat

    ghost predicate Valid()
      reads this
    {
      match infoMap
      case None => builds == 0
      case Some(m) => m == DefaultCatalog() && builds == 1
    }

    /** The module as loaded: `toolbarItemInfoMap = null`. */
    constructor ()
      ensures Valid() && infoMap == None
    {
      infoMap := None;
      builds := 0;
    }

    /** `createToolbarItemInfo`: builds the catalog on the first call only, then resolves. */
    method CreateToolbarItemInfo(spec: ItemSpec) returns (r: Option<ButtonInfo>)
      requires Valid()
      modifies this
      ensures Valid() && infoMap == Some(DefaultCatalog())
      ensures builds == if old(infoMap).None? then old(builds) + 1 else old(builds)
      ensures r == Resolve(DefaultCatalog(), spec)
    {
      if infoMap.None? {
        var m := CreateDefaultToolbarItemInfo();
        infoMap := Some(m);
        builds := builds + 1;
      }
      match spec {
        case Named(n) =>
          r := if n in infoMap.value then Some(infoMap.value[n]) else None;
        case Options(info) =>
          r := Some(info);
      }
    }
  }
}
