/**
 * `createLayerInfo`: the popup layer a toolbar button opens, described as a
 * record of named fields. The render closures are modelled by the body
 * component each one renders; DOM elements and positions are opaque values.
 */
module ToolbarLayers {
  import opened Wrappers
  import opened ToolbarCatalog

  /** A DOM element, known only by identity. */
  datatype ElementHandle = ElementHandle(id: nat)

  datatype Pos = Pos(left: int, top: int)

  /**
   * The component a layer's `render` closure instantiates. The custom one
   * also passes `layerBody` read from the caller's layer options, which it
   * captures.
   */
  datatype LayerBody =
    | HeadingLayerBody
    | LinkLayerBody
    | ImageLayerBody
    | TableLayerBody
    | CustomLayer(layer: Option<map<string, Value>>)

  /** A field value of a layer record. */
  datatype Value =
    | Str(s: string)
    | Text(caption: Label)
    | Element(el: ElementHandle)
    | Position(pos: Pos)
    | Render(body: LayerBody)
    | Other(handle: nat)

  /** Caller-supplied fields of a custom layer, and the layer record itself. */
  type LayerOptions = map<string, Value>
  type LayerInfo = map<string, Value>

  datatype Payload = Payload(el: ElementHandle, pos: Pos, layer: Option<LayerOptions>)

  const RenderKey := "render"
  const ClassNameKey := "className"
  const HeaderTextKey := "headerText"
  const FromElKey := "fromEl"
  const PosKey := "pos"

  /** The layer kinds the switch knows. */
  datatype LayerKind = Heading | Link | Image | Table | Custom

  function KindName(k: LayerKind): string {
    match k
    case Heading => "heading"
    case Link => "link"
    case Image => "image"
    case Table => "table"
    case Custom => "customLayer"
  }

  /** The kind a type string names, if any; the inverse of `KindName`. */
  function ParseLayerKind(kind: string): (r: Option<LayerKind>)
    ensures r.Some? ==> KindName(r.value) == kind
    ensures r.None? ==> forall k: LayerKind :: KindName(k) != kind
  {
    if kind == "heading" then Some(Heading)
    else if kind == "link" then Some(Link)
    else if kind == "image" then Some(Image)
    else if kind == "table" then Some(Table)
    else if kind == "customLayer" then Some(Custom)
    else None
  }

  lemma KindNameRoundTrip(k: LayerKind)
    ensures ParseLayerKind(KindName(k)) == Some(k)
  {
  }

  /** The body each built-in kind renders. */
  function BodyOf(k: LayerKind): LayerBody
    requires k != Custom
  {
    match k
    case Heading => HeadingLayerBody
    case Link => LinkLayerBody
    case Image => ImageLayerBody
    case Table => TableLayerBody
  }

  /** The fields every layer has: the body it renders, the element it opens from, its position. */
  function BaseFields(body: LayerBody, payload: Payload): LayerInfo {
    map[RenderKey := Render(body), FromElKey := Element(payload.el), PosKey := Position(payload.pos)]
  }

  /** `...layer`: spreading `undefined` adds nothing. */
  function Spread(layer: Option<LayerOptions>): LayerOptions {
    if layer.Some? then layer.value else map[]
  }

  /**
   * The layer record for a type string. The four built-in kinds have fixed
   * fields: their body, a class name, a header text for link and image
   * only, and the element and position of the payload; the caller's layer
   * options are ignored for them. `customLayer` has the render, element and
   * position fields followed by the caller's options spread over them, so a
   * caller field of the same name wins. Any other type string gives
   * `undefined`.
   */
  function CreateLayerInfo(kind: string, payload: Payload): (r: Option<LayerInfo>)
    ensures r.Some? <==> kind in {"heading", "link", "image", "table", "customLayer"}
    ensures r.Some? && kind != "customLayer" ==>
      && r.value.Keys == {RenderKey, ClassNameKey, FromElKey, PosKey} + (if kind in {"link", "image"} then {HeaderTextKey} else {})
      && r.value[RenderKey] == Render(BodyOf(ParseLayerKind(kind).value))
      && r.value[FromElKey] == Element(payload.el)
      && r.value[PosKey] == Position(payload.pos)
      && r.value[ClassNameKey].Str?
    ensures kind == "customLayer" ==>
      && r.Some?
      && r.value.Keys == {RenderKey, FromElKey, PosKey} + Spread(payload.layer).Keys
      && (forall key :: key in Spread(payload.layer) ==> r.value[key] == Spread(payload.layer)[key])
      && (RenderKey !in Spread(payload.layer) ==> r.value[RenderKey] == Render(CustomLayer(payload.layer)))
      && (FromElKey !in Spread(payload.layer) ==> r.value[FromElKey] == Element(payload.el))
      && (PosKey !in Spread(payload.layer) ==> r.value[PosKey] == Position(payload.pos))
  {
    if kind == "heading" then
      Some(BaseFields(HeadingLayerBody, payload)[ClassNameKey := Str("te-heading-add")])
    else if kind == "link" then
      Some(BaseFields(LinkLayerBody, payload)[ClassNameKey := Str("te-popup-add-link tui-editor-popup")]
                                             [HeaderTextKey := Text(Translated("Insert link"))])
    else if kind == "image" then
      Some(BaseFields(ImageLayerBody, payload)[ClassNameKey := Str("te-popup-add-image tui-editor-popup")]
                                              [HeaderTextKey := Text(Translated("Insert image"))])
    else if kind == "table" then
      Some(BaseFields(TableLayerBody, payload)[ClassNameKey := Str("te-popup-add-table")])
    else if kind == "customLayer" then
      Some(BaseFields(CustomLayer(payload.layer), payload) + Spread(payload.layer))
    else
      None
  }

  /** The layer of a built-in kind depends only on the element and position of the payload. */
  lemma BuiltInLayerIgnoresOptions(kind: string, payload: Payload, layer: Option<LayerOptions>)
    requires kind != "customLayer"
    ensures CreateLayerInfo(kind, payload) == CreateLayerInfo(kind, payload.(layer := layer))
  {
  }

  /** The class names and header texts of the built-in kinds. */
  lemma BuiltInLayerLooks(payload: Payload)
    ensures CreateLayerInfo("heading", payload).value[ClassNameKey] == Str("te-heading-add")
    ensures CreateLayerInfo("link", payload).value[ClassNameKey] == Str("te-popup-add-link tui-editor-popup")
    ensures CreateLayerInfo("link", payload).value[HeaderTextKey] == Text(Translated("Insert link"))
    ensures CreateLayerInfo("image", payload).value[ClassNameKey] == Str("te-popup-add-image tui-editor-popup")
    ensures CreateLayerInfo("image", payload).value[HeaderTextKey] == Text(Translated("Insert image"))
    ensures CreateLayerInfo("table", payload).value[ClassNameKey] == Str("te-popup-add-table")
  {
  }

  /** Without caller options, a custom layer is exactly the three base fields. */
  lemma CustomLayerWithoutOptions(payload: Payload)
    requires payload.layer.None?
    ensures CreateLayerInfo("customLayer", payload) == Some(BaseFields(CustomLayer(None), payload))
  {
    var base := BaseFields(CustomLayer(None), payload);
    assert base + map[] == base;
  }
}
