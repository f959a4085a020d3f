/**
 * The hyperscript builder of the editor's virtual DOM (`vdom/template.ts`):
 * `createTextNode` and `h`, which flattens its children by exactly one level.
 */
module Template {
  import opened Wrappers

  /** A tag name, or a reference to a component class (an opaque handle). */
  datatype NodeType = Tag(name: string) | Component(handle: nat)

  /** A property value: a string, or any other value (an opaque handle). */
  datatype PropValue = PString(s: string) | POther(handle: nat)

  type Props = map<string, PropValue>

  /** A virtual node: `new VNode(type, props, children)`. */
  datatype VNode = VNode(nodeType: NodeType, props: Props, children: seq<Child>)

  /**
   * What a caller may pass as a child of `h`: a node, a bare string, an array
   * (a fragment) of further children, or any other value (number, boolean,
   * null) that `h` passes through untouched.
   */
  datatype Child =
    | Node(node: VNode)
    | Text(text: string)
    | Fragment(items: seq<Child>)
    | Opaque(handle: nat)

  const TextNodeType: NodeType := Tag("TEXT_NODE")

  /** A text node: a childless `TEXT_NODE` whose `nodeValue` prop is the text. */
  predicate IsTextNode(n: VNode) {
    n.nodeType == TextNodeType && n.children == [] &&
    "nodeValue" in n.props && n.props["nodeValue"].PString?
  }

  /** The text a text node wraps; the inverse of `CreateTextNode`. */
  function NodeValue(n: VNode): string
    requires IsTextNode(n)
  {
    n.props["nodeValue"].s
  }

  function CreateTextNode(text: string): (r: VNode)
    ensures IsTextNode(r) && NodeValue(r) == text
    ensures r.props.Keys == {"nodeValue"}
  {
    VNode(TextNodeType, map["nodeValue" := PString(text)], [])
  }

  /** Two text nodes are equal exactly when they wrap the same text. */
  lemma TextNodeInjective(a: string, b: string)
    ensures CreateTextNode(a) == CreateTextNode(b) <==> a == b
  {
    if CreateTextNode(a) == CreateTextNode(b) {
      assert NodeValue(CreateTextNode(a)) == NodeValue(CreateTextNode(b));
    }
  }

  /** What one top-level child contributes to the flattened list. */
  function Expand(c: Child): seq<Child> {
    match c
    case Fragment(items) => items
    case Text(s) => [Node(CreateTextNode(s))]
    case _ => [c]
  }

  /** The children of `h`'s result: each child's contribution, in order. */
  function Flatten(cs: seq<Child>): seq<Child> {
    if cs == [] then [] else Flatten(cs[..|cs| - 1]) + Expand(cs[|cs| - 1])
  }

  /** How many output children a child list yields: an array counts its length, anything else 1. */
  function Width(cs: seq<Child>): nat {
    if cs == [] then 0
    else Width(cs[..|cs| - 1]) + (if cs[|cs| - 1].Fragment? then |cs[|cs| - 1].items| else 1)
  }

  function PropsOrDefault(props: Option<Props>): Props {
    match props
    case None => map[]
    case Some(p) => p
  }

  /** `h(type, props = {}, ...children)`; `None` for `props` is an omitted argument. */
  method H(nodeType: NodeType, props: Option<Props>, children: seq<Child>) returns (r: VNode)
    ensures r.nodeType == nodeType
    ensures r.props == PropsOrDefault(props)
    ensures r.children == Flatten(children)
  {
    var flatted: seq<Child> := [];
    for i := 0 to |children|
      invariant flatted == Flatten(children[..i])
    {
      var child := children[i];
      assert children[..i + 1][..i] == children[..i];
      if child.Fragment? {
        for j := 0 to |child.items|
          invariant flatted == Flatten(children[..i]) + child.items[..j]
        {
          flatted := flatted + [child.items[j]];
          assert child.items[..j + 1] == child.items[..j] + [child.items[j]];
        }
        assert child.items[..|child.items|] == child.items;
      } else {
        flatted := flatted + [if child.Text? then Node(CreateTextNode(child.text)) else child];
      }
    }
    assert children[..|children|] == children;
    r := VNode(nodeType, PropsOrDefault(props), flatted);
  }

  /** Flattening distributes over concatenation: each child is spliced in place. */
  lemma {:induction false} FlattenAppend(a: seq<Child>, b: seq<Child>)
    ensures Flatten(a + b) == Flatten(a) + Flatten(b)
    decreases |b|
  {
    if b == [] {
      assert a + b == a;
    } else {
      var b' := b[..|b| - 1];
      FlattenAppend(a, b');
      assert (a + b)[..|a + b| - 1] == a + b';
      assert (a + b)[|a + b| - 1] == b[|b| - 1];
    }
  }

  /** The number of output children is the sum of the children's widths. */
  lemma {:induction false} FlattenLength(cs: seq<Child>)
    ensures |Flatten(cs)| == Width(cs)
    decreases |cs|
  {
    if cs != [] {
      FlattenLength(cs[..|cs| - 1]);
    }
  }

  /**
   * Order is preserved: the contribution of child `i` sits in the output at
   * the offset given by the widths of the children before it.
   */
  lemma FlattenAt(cs: seq<Child>, i: nat, k: nat)
    requires i < |cs| && k < |Expand(cs[i])|
    ensures Width(cs[..i]) + k < |Flatten(cs)|
    ensures Flatten(cs)[Width(cs[..i]) + k] == Expand(cs[i])[k]
  {
    assert cs == cs[..i] + [cs[i]] + cs[i + 1..];
    FlattenAppend(cs[..i] + [cs[i]], cs[i + 1..]);
    FlattenAppend(cs[..i], [cs[i]]);
    assert Flatten([cs[i]]) == Expand(cs[i]) by {
      assert [cs[i]][..0] == [];
    }
    FlattenLength(cs[..i]);
  }

  /** A top-level string becomes a text node; other non-array children pass unchanged. */
  lemma TopLevelChild(cs: seq<Child>, i: nat)
    requires i < |cs| && !cs[i].Fragment?
    ensures Width(cs[..i]) < |Flatten(cs)|
    ensures cs[i].Text? ==> Flatten(cs)[Width(cs[..i])] == Node(CreateTextNode(cs[i].text))
    ensures !cs[i].Text? ==> Flatten(cs)[Width(cs[..i])] == cs[i]
  {
    FlattenAt(cs, i, 0);
  }

  /** Elements of an array child are pushed as they are: neither wrapped nor flattened further. */
  lemma FragmentElement(cs: seq<Child>, i: nat, k: nat)
    requires i < |cs| && cs[i].Fragment? && k < |cs[i].items|
    ensures Width(cs[..i]) + k < |Flatten(cs)|
    ensures Flatten(cs)[Width(cs[..i]) + k] == cs[i].items[k]
  {
    FlattenAt(cs, i, k);
  }

  /** Children with no string and no array at the top level. */
  predicate Normalized(cs: seq<Child>) {
    forall i :: 0 <= i < |cs| ==> !cs[i].Text? && !cs[i].Fragment?
  }

  /** `h` leaves already normalized children as they are. */
  lemma {:induction false} FlattenNormalized(cs: seq<Child>)
    requires Normalized(cs)
    ensures Flatten(cs) == cs
    decreases |cs|
  {
    if cs != [] {
      FlattenNormalized(cs[..|cs| - 1]);
      assert cs == cs[..|cs| - 1] + [cs[|cs| - 1]];
    }
  }

  /** Every array child holds only normalized elements. */
  predicate FragmentsNormalized(cs: seq<Child>) {
    forall i :: 0 <= i < |cs| && cs[i].Fragment? ==> Normalized(cs[i].items)
  }

  /**
   * When the array children hold no strings and no arrays, the output is
   * normalized, so flattening it again changes nothing.
   */
  lemma {:induction false} FlattenIdempotent(cs: seq<Child>)
    requires FragmentsNormalized(cs)
    ensures Normalized(Flatten(cs))
    ensures Flatten(Flatten(cs)) == Flatten(cs)
    decreases |cs|
  {
    if cs != [] {
      var init := cs[..|cs| - 1];
      assert FragmentsNormalized(init) by {
        forall i | 0 <= i < |init| && init[i].Fragment? ensures Normalized(init[i].items) {
          assert init[i] == cs[i];
        }
      }
      FlattenIdempotent(init);
    }
    FlattenNormalized(Flatten(cs));
  }

  /** Only one level is flattened: a string inside an array stays a string, a nested array stays an array. */
  lemma OneLevelOnly(s: string, xs: seq<Child>)
    ensures Flatten([Fragment([Text(s)])]) == [Text(s)]
    ensures Flatten([Fragment([Fragment(xs)])]) == [Fragment(xs)]
    ensures !Normalized(Flatten([Fragment([Text(s)])]))
  {
    assert [Fragment([Text(s)])][..0] == [];
    assert [Fragment([Fragment(xs)])][..0] == [];
  }
}
