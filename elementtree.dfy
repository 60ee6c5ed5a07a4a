/** The parsed XML document as an element tree (what `ET.parse(...).getroot()`
    returns) and the `findall('.//tag')` search over it. */
module ElementTree {
  import opened Wrappers

  datatype Element = Element(tag: string, attrib: map<string, string>, children: seq<Element>)

  /** `element.get(name)`: the attribute's value, or None when it is absent. */
  function Get(e: Element, name: string): (r: Option<string>)
    ensures r.Some? <==> name in e.attrib
    ensures r.Some? ==> r.value == e.attrib[name]
  {
    if name in e.attrib then Some(e.attrib[name]) else None
  }

  /** Number of elements in a forest, counting every descendant. */
  function ForestSize(es: seq<Element>): nat
  {
    if es == [] then 0 else 1 + ForestSize(es[0].children) + ForestSize(es[1..])
  }

  /** All elements of a forest in document (pre-order) order: each tree's root,
      then its descendants, then the following trees. */
  function Iter(es: seq<Element>): (r: seq<Element>)
    ensures |r| == ForestSize(es)
    decreases ForestSize(es)
  {
    if es == [] then [] else [es[0]] + Iter(es[0].children) + Iter(es[1..])
  }

  /** The elements of `es` whose tag is `tag`, in their original order. */
  function WithTag(es: seq<Element>, tag: string): (r: seq<Element>)
    ensures |r| <= |es|
  {
    if es == [] then []
    else (if es[0].tag == tag then [es[0]] else []) + WithTag(es[1..], tag)
  }

  /** The filter keeps exactly the elements with that tag. */
  lemma {:induction false} WithTagMembers(es: seq<Element>, tag: string)
    ensures forall x :: x in WithTag(es, tag) <==> x in es && x.tag == tag
  {
    if es != [] {
      WithTagMembers(es[1..], tag);
      assert es == [es[0]] + es[1..];
    }
  }

  /** `e.findall('.//' + tag)`: every descendant of `e` (not `e` itself) whose
      tag is `tag`, in document order. */
  function FindAll(e: Element, tag: string): seq<Element>
  {
    WithTag(Iter(e.children), tag)
  }

  /** Every element found below a forest is smaller than the whole forest. */
  lemma {:induction false} IterSmaller(es: seq<Element>, x: Element)
    requires x in Iter(es)
    ensures ForestSize([x]) <= ForestSize(es)
    decreases ForestSize(es)
  {
    assert es != [];
    var rest := Iter(es[0].children) + Iter(es[1..]);
    assert Iter(es) == [es[0]] + rest;
    if x == es[0] {
      assert [x][1..] == [];
    } else if x in Iter(es[0].children) {
      IterSmaller(es[0].children, x);
      assert [x][1..] == [];
    } else {
      assert x in Iter(es[1..]);
      IterSmaller(es[1..], x);
    }
  }

  /** `findall('.//tag')` finds exactly the descendants with that tag, and
      never the element the search starts from. */
  lemma FindAllSpec(e: Element, tag: string)
    ensures forall x :: x in FindAll(e, tag) <==> x in Iter(e.children) && x.tag == tag
    ensures e !in FindAll(e, tag)
  {
    WithTagMembers(Iter(e.children), tag);
    if e in FindAll(e, tag) {
      IterSmaller(e.children, e);
    }
  }
}
