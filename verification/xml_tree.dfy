/** An already-parsed XML document, as ElementTree hands it over, and the
    few queries the unit resolver asks of it.  Parsing itself is left out. */
module XmlTree {
  import opened Base
  import opened Diagnostics
  import OrderedMap

  /** An element: its tag, its attributes in document order, and its child
      elements in document order. */
  datatype Element = Element(tag: string, attributes: OrderedMap.Dict<string, string>, children: seq<Element>)

  /** `element.get(key)`: `None` when the attribute is absent. */
  function Get(e: Element, key: string): (r: Option<string>)
    ensures r.None? <==> key !in OrderedMap.Keys(e.attributes)
    ensures r.Some? ==> (key, r.value) in e.attributes
  {
    OrderedMap.Get(e.attributes, key)
  }

  /** Python's truth test of an attribute value: present and not empty. */
  predicate Truthy(v: Option<string>) {
    v.Some? && |v.value| > 0
  }

  /** `element.iterfind(tag)` for a plain tag: the children with that tag,
      in document order. */
  function FindAll(e: Element, tag: string): (r: seq<Element>)
    ensures forall c :: c in r <==> c in e.children && c.tag == tag
    ensures |r| <= |e.children|
  {
    Tagged(e.children, tag)
  }

  function Tagged(cs: seq<Element>, tag: string): (r: seq<Element>)
    ensures forall c :: c in r <==> c in cs && c.tag == tag
    ensures |r| <= |cs|
  {
    if |cs| == 0 then []
    else (if cs[0].tag == tag then [cs[0]] else []) + Tagged(cs[1..], tag)
  }

  /** `element.find(tag)` for a plain tag: the first child with that tag. */
  function Find(e: Element, tag: string): (r: Option<Element>)
    ensures r.Some? ==> r.value in e.children && r.value.tag == tag
    ensures r.None? <==> forall c :: c in e.children ==> c.tag != tag
  {
    FirstTagged(e.children, tag)
  }

  function FirstTagged(cs: seq<Element>, tag: string): (r: Option<Element>)
    ensures r.Some? ==> r.value in cs && r.value.tag == tag
    ensures r.None? <==> forall c :: c in cs ==> c.tag != tag
  {
    if |cs| == 0 then None
    else if cs[0].tag == tag then Some(cs[0])
    else FirstTagged(cs[1..], tag)
  }

  /** `find` gives the first of the children `iterfind` lists. */
  lemma {:induction false} FindIsFirst(e: Element, tag: string)
    ensures Find(e, tag) == if |FindAll(e, tag)| == 0 then None else Some(FindAll(e, tag)[0])
  {
    FirstTaggedIsFirst(e.children, tag);
  }

  lemma {:induction false} FirstTaggedIsFirst(cs: seq<Element>, tag: string)
    ensures FirstTagged(cs, tag) == if |Tagged(cs, tag)| == 0 then None else Some(Tagged(cs, tag)[0])
  {
    if |cs| > 0 && cs[0].tag != tag {
      FirstTaggedIsFirst(cs[1..], tag);
    }
  }

  /** `read_xml(filepath, expected_tag)` after `ET.parse`: a root with
      another tag appends one ERROR and raises StopParsing (importer.py
      lines 71-77, blender_gladius/importer.py lines 48-54). */
  function ReadXml(path: string, root: Element, expected: Option<string>): (r: Outcome<Element>)
    ensures expected.Some? && root.tag != expected.value <==> r.result.Err?
    ensures r.result.Ok? ==> r == Outcome([], Ok(root))
    ensures r.result.Err? ==> r.result.fault == StopParsing && |r.messages| == 1
    ensures r.result.Err? ==> var m := r.messages[0];
              m.Severity() == Error && m == WrongRoot(path, expected.value, root.tag)
  {
    if expected.Some? && root.tag != expected.value then
      Outcome([WrongRoot(path, expected.value, root.tag)], Err(StopParsing))
    else Outcome([], Ok(root))
  }

  /** Only a root whose tag is the expected one is accepted; any other
      raises after its single ERROR, whatever the rest of the document. */
  lemma {:induction false} WrongRootStops(path: string, root: Element, expected: string, other: Element)
    requires other.tag == root.tag
    ensures ReadXml(path, root, Some(expected)).result.Ok? <==> root.tag == expected
    ensures root.tag != expected ==> ReadXml(path, root, Some(expected)).messages == ReadXml(path, other, Some(expected)).messages
    ensures root.tag != expected ==> ReadXml(path, root, Some(expected)).result == Err(StopParsing)
  {
  }
}
