/** The parsed declaration as an immutable element tree, the selection of its
    user id data entries (the XPath `/zus:KEDU/zus:<any>/zus:II`), and the insertion of the
    two identity-document fields `p4` and `p5` into one entry.

    Only elements are modelled.  Attributes and tail text play no part in what
    the patcher reads or writes.  Comments and processing instructions are not
    modelled either: inside an `II` element lxml lists them among the
    children, where the `tag.endswith` test of the patcher raises on them and
    `insert` counts them as positions. */
module XmlTree {
  import opened Wrappers

  /** An element: namespace URI (empty for none), local name, text content and
      child elements in document order. */
  datatype Element = Element(ns: string, local: string, text: string, children: seq<Element>)

  /** lxml's `tag`: `{ns}local` in Clark notation, or the bare local name when
      the element has no namespace. */
  function Tag(e: Element): string
  {
    if e.ns == "" then e.local else "{" + e.ns + "}" + e.local
  }

  /** The tag is the local name, preceded, when the element has a namespace,
      by that namespace in braces. */
  lemma TagParts(e: Element)
    ensures EndsWith(Tag(e), e.local)
    ensures e.ns == "" ==> Tag(e) == e.local
    ensures e.ns != "" ==> Tag(e)[..|e.ns| + 2] == "{" + e.ns + "}"
  {
    var t := Tag(e);
    assert t[|t| - |e.local|..] == e.local;
  }

  /** Python's `s.endswith(suffix)`. */
  predicate EndsWith(s: string, suffix: string)
  {
    |suffix| <= |s| && s[|s| - |suffix|..] == suffix
  }

  /** For a suffix without a closing brace, testing the tag is the same as
      testing the local name: the namespace part never takes part. */
  lemma TagSuffixIsLocalSuffix(e: Element, suffix: string)
    requires forall k :: 0 <= k < |suffix| ==> suffix[k] != '}'
    ensures EndsWith(Tag(e), suffix) <==> EndsWith(e.local, suffix)
  {
    var t := Tag(e);
    if e.ns != "" {
      var off := |t| - |e.local|;
      assert t[off..] == e.local;
      assert t[off - 1] == '}';
      if EndsWith(t, suffix) && |suffix| > |e.local| {
        assert false;
      }
      if EndsWith(e.local, suffix) {
        assert t[|t| - |suffix|..] == e.local[|e.local| - |suffix|..];
      }
    }
  }

  // ---------------------------------------------------------------------------
  // List insertion
  // ---------------------------------------------------------------------------

  function Min(a: int, b: int): int
  {
    if a <= b then a else b
  }

  /** The sequence without its element at index `k`. */
  function RemoveAt<T>(s: seq<T>, k: nat): (r: seq<T>)
    requires k < |s|
    ensures |r| == |s| - 1
  {
    s[..k] + s[k + 1..]
  }

  /** Python's `list.insert(i, x)` (and lxml's `Element.insert`) for a
      non-negative index: an index past the end appends. */
  function InsertAt<T>(s: seq<T>, i: nat, x: T): (r: seq<T>)
    ensures |r| == |s| + 1
    ensures r[Min(i, |s|)] == x
    ensures RemoveAt(r, Min(i, |s|)) == s
  {
    var k := Min(i, |s|);
    var r := s[..k] + [x] + s[k..];
    assert r[..k] == s[..k] && r[k + 1..] == s[k..];
    r
  }

  // ---------------------------------------------------------------------------
  // User id data fields
  // ---------------------------------------------------------------------------

  /** A field element as `et.Element('p<n>')` creates it: no namespace, the
      given text and no children. */
  function Field(local: string, text: string): Element
  {
    Element("", local, text, [])
  }

  /** Some child's tag ends with `suffix`. */
  predicate HasChildTagSuffix(e: Element, suffix: string)
  {
    AnyTagEndsWith(e.children, suffix)
  }

  /** `any(tag.endswith(suffix) for ...)`, child by child. */
  predicate AnyTagEndsWith(cs: seq<Element>, suffix: string)
  {
    |cs| > 0 && (EndsWith(Tag(cs[0]), suffix) || AnyTagEndsWith(cs[1..], suffix))
  }

  /** The child-by-child scan finds a match exactly when some child's tag ends
      with `suffix`. */
  lemma {:induction false} AnyTagEndsWithSome(cs: seq<Element>, suffix: string)
    ensures AnyTagEndsWith(cs, suffix) <==> exists i :: 0 <= i < |cs| && EndsWith(Tag(cs[i]), suffix)
    decreases |cs|
  {
    if |cs| > 0 {
      AnyTagEndsWithSome(cs[1..], suffix);
      if exists i :: 0 <= i < |cs| && EndsWith(Tag(cs[i]), suffix) {
        var i :| 0 <= i < |cs| && EndsWith(Tag(cs[i]), suffix);
        if i > 0 {
          assert cs[1..][i - 1] == cs[i];
        }
      }
      if AnyTagEndsWith(cs[1..], suffix) {
        var j :| 0 <= j < |cs[1..]| && EndsWith(Tag(cs[1..][j]), suffix);
        assert cs[j + 1] == cs[1..][j];
      }
    }
  }

  /** The entry already carries both identity-document fields. */
  predicate HasIdFields(e: Element)
  {
    HasChildTagSuffix(e, "p4") && HasChildTagSuffix(e, "p5")
  }

  /** An entry holds both fields exactly when one child's tag ends with `p4`
      and another child's tag ends with `p5`; no tag ends with both. */
  lemma HasIdFieldsSome(e: Element)
    ensures HasIdFields(e) <==>
      && (exists i :: 0 <= i < |e.children| && EndsWith(Tag(e.children[i]), "p4"))
      && (exists j :: 0 <= j < |e.children| && EndsWith(Tag(e.children[j]), "p5"))
    ensures HasIdFields(e) ==> |e.children| >= 2
  {
    AnyTagEndsWithSome(e.children, "p4");
    AnyTagEndsWithSome(e.children, "p5");
    if HasIdFields(e) {
      var i :| 0 <= i < |e.children| && EndsWith(Tag(e.children[i]), "p4");
      var j :| 0 <= j < |e.children| && EndsWith(Tag(e.children[j]), "p5");
      var t := Tag(e.children[i]);
      assert t[|t| - 1] == '4';
      assert i != j;
    }
  }

  /** A character lxml accepts in element text: the `Char` production of
      section 2.2 of the XML 1.0 recommendation, which leaves out the control
      characters below U+0020 other than tab, line feed and carriage return,
      and U+FFFE and U+FFFF. */
  predicate XmlChar(c: char)
  {
    (c == '\t' || c == '\n' || c == '\r' || ' ' <= c) && c != '\U{FFFE}' && c != '\U{FFFF}'
  }

  /** Text that `item.text = ...` accepts; on any other lxml raises
      `ValueError` and the element keeps its old text. */
  predicate XmlText(s: string)
  {
    forall i :: 0 <= i < |s| ==> XmlChar(s[i])
  }

  /** The first insertion alone, `insert(3, p4)`: what an entry holds when the
      document type was written and the number was then refused. */
  function WithTypeField(e: Element, typeCode: string): (r: Element)
    ensures SameHead(r, e)
    ensures |r.children| == |e.children| + 1
    ensures r.children[Min(3, |e.children|)] == Field("p4", typeCode)
    ensures RemoveAt(r.children, Min(3, |e.children|)) == e.children
  {
    e.(children := InsertAt(e.children, 3, Field("p4", typeCode)))
  }

  /** The two insertions `insert(3, p4)` and `insert(4, p5)`: the document type
      goes to index 3, the document number right after it, and the existing
      children keep their order around them.  An entry with fewer than three
      children gets both fields appended. */
  function WithIdFields(e: Element, typeCode: string, number: string): (r: Element)
    ensures r.ns == e.ns && r.local == e.local && r.text == e.text
    ensures |r.children| == |e.children| + 2
    ensures |e.children| >= 3 ==>
      r.children == e.children[..3] + [Field("p4", typeCode), Field("p5", number)] + e.children[3..]
    ensures |e.children| < 3 ==>
      r.children == e.children + [Field("p4", typeCode), Field("p5", number)]
    ensures HasIdFields(r)
  {
    var c := e.children;
    var c1 := InsertAt(c, 3, Field("p4", typeCode));
    var c2 := InsertAt(c1, 4, Field("p5", number));
    var k := Min(3, |c|);
    assert c1 == c[..k] + [Field("p4", typeCode)] + c[k..];
    assert c2 == c[..k] + [Field("p4", typeCode), Field("p5", number)] + c[k..];
    FieldPairFound(c[..k], c[k..], typeCode, number);
    e.(children := c2)
  }

  /** Children with the field pair somewhere among them have a `p4` and a
      `p5` tag. */
  lemma FieldPairFound(pre: seq<Element>, post: seq<Element>, typeCode: string, number: string)
    ensures var cs := pre + [Field("p4", typeCode), Field("p5", number)] + post;
      AnyTagEndsWith(cs, "p4") && AnyTagEndsWith(cs, "p5")
  {
    var cs := pre + [Field("p4", typeCode), Field("p5", number)] + post;
    assert cs[|pre|] == Field("p4", typeCode) && cs[|pre| + 1] == Field("p5", number);
    assert EndsWith(Tag(cs[|pre|]), "p4") && EndsWith(Tag(cs[|pre| + 1]), "p5");
    AnyTagEndsWithSome(cs, "p4");
    AnyTagEndsWithSome(cs, "p5");
  }

  // ---------------------------------------------------------------------------
  // Positions of user id data entries
  // ---------------------------------------------------------------------------

  /** An entry two levels below the root: child `entry` of the root's child
      `container`. */
  datatype Pos = Pos(container: nat, entry: nat)

  predicate ValidPos(root: Element, p: Pos)
  {
    p.container < |root.children| && p.entry < |root.children[p.container].children|
  }

  /** The container (the entry's parent). */
  function Parent(root: Element, p: Pos): Element
    requires ValidPos(root, p)
  {
    root.children[p.container]
  }

  function At(root: Element, p: Pos): Element
    requires ValidPos(root, p)
  {
    root.children[p.container].children[p.entry]
  }

  /** The tree with the entry at `p` replaced by `e`. */
  function Replace(root: Element, p: Pos, e: Element): (r: Element)
    requires ValidPos(root, p)
    ensures ValidPos(r, p) && At(r, p) == e
    ensures forall q :: ValidPos(root, q) ==> ValidPos(r, q)
    ensures SameHead(At(root, p), e) ==> Frame(root, r, [p])
  {
    var c := root.children[p.container];
    var c' := c.(children := c.children[p.entry := e]);
    root.(children := root.children[p.container := c'])
  }

  /** Document order of two entry positions. */
  predicate Before(p: Pos, q: Pos)
  {
    p.container < q.container || (p.container == q.container && p.entry < q.entry)
  }

  predicate InDocumentOrder(ps: seq<Pos>)
  {
    forall a, b :: 0 <= a < b < |ps| ==> Before(ps[a], ps[b])
  }

  /** The XPath `/zus:KEDU/zus:<container>/zus:II` with `zus` bound to `ns`
      selects the entry at `p`; a `container` of `None` stands for `zus:*`.
      A prefixed name test never matches an element without a namespace, so
      with `zus` bound to the empty URI nothing is selected. */
  predicate Selected(root: Element, ns: string, container: Option<string>, p: Pos)
  {
    && ns != ""
    && root.ns == ns && root.local == "KEDU"
    && ValidPos(root, p)
    && Parent(root, p).ns == ns
    && (container.Some? ==> Parent(root, p).local == container.value)
    && At(root, p).ns == ns && At(root, p).local == "II"
  }

  /** Everything the XPath selects, in document order. */
  function Select(root: Element, ns: string, container: Option<string>): (ps: seq<Pos>)
    ensures forall k :: 0 <= k < |ps| ==> Selected(root, ns, container, ps[k])
    ensures forall p :: Selected(root, ns, container, p) ==> p in ps
    ensures InDocumentOrder(ps)
  {
    if ns != "" && root.ns == ns && root.local == "KEDU" then SelectFrom(root, ns, container, 0) else []
  }

  /** The selected entries of containers `i` onwards. */
  function SelectFrom(root: Element, ns: string, container: Option<string>, i: nat): (ps: seq<Pos>)
    requires i <= |root.children|
    ensures forall k :: 0 <= k < |ps| ==> Selected(root, ns, container, ps[k]) && ps[k].container >= i
    ensures forall p :: Selected(root, ns, container, p) && p.container >= i ==> p in ps
    ensures InDocumentOrder(ps)
    decreases |root.children| - i
  {
    if i == |root.children| then []
    else
      var here := EntriesOf(root, ns, container, i, 0);
      var rest := SelectFrom(root, ns, container, i + 1);
      assert forall p :: Selected(root, ns, container, p) && p.container == i ==> p in here;
      here + rest
  }

  /** The selected entries among children `j` onwards of container `i`. */
  function EntriesOf(root: Element, ns: string, container: Option<string>, i: nat, j: nat): (ps: seq<Pos>)
    requires i < |root.children| && j <= |root.children[i].children|
    ensures forall k :: 0 <= k < |ps| ==> Selected(root, ns, container, ps[k]) && ps[k].container == i && ps[k].entry >= j
    ensures forall p :: Selected(root, ns, container, p) && p.container == i && p.entry >= j ==> p in ps
    ensures InDocumentOrder(ps)
    decreases |root.children[i].children| - j
  {
    if j == |root.children[i].children| then []
    else
      var rest := EntriesOf(root, ns, container, i, j + 1);
      if Selected(root, ns, container, Pos(i, j)) then
        var ps := [Pos(i, j)] + rest;
        assert forall k :: 0 < k < |ps| ==> ps[k] == rest[k - 1];
        ps
      else rest
  }

  // ---------------------------------------------------------------------------
  // What a patch leaves alone
  // ---------------------------------------------------------------------------

  /** Same namespace, local name and text. */
  predicate SameHead(a: Element, b: Element)
  {
    a.ns == b.ns && a.local == b.local && a.text == b.text
  }

  /** `after` differs from `before` at most in the children of the entries at
      the positions `ps`: the root, every container and every entry keep their
      name, namespace and text, and every other entry is unchanged. */
  predicate Frame(before: Element, after: Element, ps: seq<Pos>)
  {
    && SameHead(before, after)
    && |after.children| == |before.children|
    && forall i :: 0 <= i < |before.children| ==> ContainerFrame(before.children[i], after.children[i], i, ps)
  }

  predicate ContainerFrame(c: Element, c': Element, i: nat, ps: seq<Pos>)
  {
    && SameHead(c, c')
    && |c'.children| == |c.children|
    && forall j :: 0 <= j < |c.children| ==>
         SameHead(c.children[j], c'.children[j]) && (Pos(i, j) !in ps ==> c'.children[j] == c.children[j])
  }

  lemma FrameRefl(root: Element, ps: seq<Pos>)
    ensures Frame(root, root, ps)
  {
  }

  /** Frames compose: the changes of two steps are confined to the union of
      their positions. */
  lemma FrameTrans(a: Element, b: Element, c: Element, ps: seq<Pos>, qs: seq<Pos>)
    requires Frame(a, b, ps) && Frame(b, c, qs)
    ensures Frame(a, c, ps + qs)
  {
    forall i | 0 <= i < |a.children|
      ensures ContainerFrame(a.children[i], c.children[i], i, ps + qs)
    {
      assert ContainerFrame(a.children[i], b.children[i], i, ps);
      assert ContainerFrame(b.children[i], c.children[i], i, qs);
    }
  }

  /** Inside a frame every position stays valid, and an entry outside `ps`
      is unchanged. */
  lemma FrameAt(a: Element, b: Element, ps: seq<Pos>, p: Pos)
    requires Frame(a, b, ps) && ValidPos(a, p)
    ensures ValidPos(b, p)
    ensures SameHead(At(a, p), At(b, p)) && SameHead(Parent(a, p), Parent(b, p))
    ensures p !in ps ==> At(b, p) == At(a, p)
  {
    assert ContainerFrame(a.children[p.container], b.children[p.container], p.container, ps);
  }

  /** A frame changes nothing the selection looks at, so it selects the same
      entries before and after. */
  lemma FrameSelect(a: Element, b: Element, ps: seq<Pos>, ns: string, container: Option<string>)
    requires Frame(a, b, ps)
    ensures Select(b, ns, container) == Select(a, ns, container)
  {
    if ns != "" && a.ns == ns && a.local == "KEDU" {
      FrameSelectFrom(a, b, ps, ns, container, 0);
    }
  }

  lemma {:induction false} FrameSelectFrom(a: Element, b: Element, ps: seq<Pos>, ns: string, container: Option<string>, i: nat)
    requires Frame(a, b, ps) && i <= |a.children|
    ensures SelectFrom(b, ns, container, i) == SelectFrom(a, ns, container, i)
    decreases |a.children| - i
  {
    if i < |a.children| {
      assert ContainerFrame(a.children[i], b.children[i], i, ps);
      FrameEntriesOf(a, b, ps, ns, container, i, 0);
      FrameSelectFrom(a, b, ps, ns, container, i + 1);
    }
  }

  lemma {:induction false} FrameEntriesOf(a: Element, b: Element, ps: seq<Pos>, ns: string, container: Option<string>, i: nat, j: nat)
    requires Frame(a, b, ps) && i < |a.children| && j <= |a.children[i].children|
    requires ContainerFrame(a.children[i], b.children[i], i, ps)
    ensures EntriesOf(b, ns, container, i, j) == EntriesOf(a, ns, container, i, j)
    decreases |a.children[i].children| - j
  {
    if j < |a.children[i].children| {
      FrameAt(a, b, ps, Pos(i, j));
      assert Selected(b, ns, container, Pos(i, j)) == Selected(a, ns, container, Pos(i, j));
      FrameEntriesOf(a, b, ps, ns, container, i, j + 1);
    }
  }
}
