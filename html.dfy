/** The attribute clean-up of cleanUpHtml, over the elements of a post body
    taken as a flat list (tag names and attribute names as the HTML parser
    gives them, in lower case). */
module Html {
  import opened Js

  datatype Attribute = Attribute(name: JsString, value: JsString)
  datatype Element = Element(tag: JsString, attributes: seq<Attribute>)

  const IMG: JsString := Lit("img")
  const FIGURE: JsString := Lit("figure")
  const FIGCAPTION: JsString := Lit("figcaption")
  const CLASS: JsString := Lit("class")

  /** The attributes an `img` loses. */
  const IMG_REMOVED: seq<JsString> :=
    [CLASS, Lit("width"), Lit("height"), Lit("data-recalc-dims"), Lit("sizes"), Lit("srcset")]

  /** The attribute names removed from an element with this tag. */
  function Removed(tag: JsString): seq<JsString> {
    if tag == IMG then IMG_REMOVED
    else if tag == FIGURE || tag == FIGCAPTION then [CLASS]
    else []
  }

  /** The attributes whose names are not in `names`, in their order. */
  function Without(attributes: seq<Attribute>, names: seq<JsString>): (r: seq<Attribute>)
    ensures |r| <= |attributes|
    decreases |attributes|
  {
    if attributes == [] then []
    else
      var k := |attributes| - 1;
      Without(attributes[..k], names) + (if attributes[k].name in names then [] else [attributes[k]])
  }

  /** The kept attributes are exactly those whose names are not removed. */
  lemma {:induction false} WithoutMembers(attributes: seq<Attribute>, names: seq<JsString>, a: Attribute)
    ensures a in Without(attributes, names) <==> a in attributes && a.name !in names
    decreases |attributes|
  {
    if attributes != [] {
      var k := |attributes| - 1;
      WithoutMembers(attributes[..k], names, a);
      FrontLast(attributes);
    }
  }

  /** Removing attributes from two runs is removing them from their
      concatenation: the kept attributes stay in their order. */
  lemma {:induction false} WithoutAppend(a: seq<Attribute>, b: seq<Attribute>, names: seq<JsString>)
    ensures Without(a + b, names) == Without(a, names) + Without(b, names)
    decreases |b|
  {
    if b == [] {
      assert a + b == a;
    } else {
      var k := |b| - 1;
      var front := b[..k];
      var last := if b[k].name in names then [] else [b[k]];
      assert (a + b)[..|a + b| - 1] == a + front;
      assert (a + b)[|a + b| - 1] == b[k];
      assert Without(a + b, names) == Without(a + front, names) + last;
      assert Without(b, names) == Without(front, names) + last;
      WithoutAppend(a, front, names);
    }
  }

  /** An element none of whose attributes is removed keeps them all. */
  lemma {:induction false} WithoutNone(attributes: seq<Attribute>, names: seq<JsString>)
    requires forall k :: 0 <= k < |attributes| ==> attributes[k].name !in names
    ensures Without(attributes, names) == attributes
    decreases |attributes|
  {
    if attributes != [] {
      var k := |attributes| - 1;
      WithoutNone(attributes[..k], names);
      FrontLast(attributes);
    }
  }

  function CleanElement(e: Element): Element {
    Element(e.tag, Without(e.attributes, Removed(e.tag)))
  }

  /** The elements of the body, each with its attributes cleaned. */
  function CleanUp(elements: seq<Element>): (r: seq<Element>)
    ensures |r| == |elements|
  {
    seq(|elements|, k requires 0 <= k < |elements| => CleanElement(elements[k]))
  }

  /** No element is added or removed and each keeps its tag; an element
      keeps exactly its attributes not listed for its tag, so an `img` has
      none of the listed ones left. */
  lemma CleanUpRules(elements: seq<Element>, k: nat, a: Attribute)
    requires k < |elements|
    ensures CleanUp(elements)[k].tag == elements[k].tag
    ensures a in CleanUp(elements)[k].attributes <==>
              a in elements[k].attributes && a.name !in Removed(elements[k].tag)
    ensures elements[k].tag == IMG && a in CleanUp(elements)[k].attributes ==> a.name !in IMG_REMOVED
  {
    WithoutMembers(elements[k].attributes, Removed(elements[k].tag), a);
  }

  /** Elements other than `img`, `figure` and `figcaption` are untouched. */
  lemma CleanUpOthers(elements: seq<Element>, k: nat)
    requires k < |elements|
    requires elements[k].tag != IMG && elements[k].tag != FIGURE && elements[k].tag != FIGCAPTION
    ensures CleanUp(elements)[k] == elements[k]
  {
    var attributes := elements[k].attributes;
    WithoutNone(attributes, []);
  }

  /** Cleaning the cleaned body changes nothing. */
  lemma CleanUpIdempotent(elements: seq<Element>)
    ensures CleanUp(CleanUp(elements)) == CleanUp(elements)
  {
    forall k | 0 <= k < |elements|
      ensures CleanElement(CleanElement(elements[k])) == CleanElement(elements[k])
    {
      var e := elements[k];
      var kept := Without(e.attributes, Removed(e.tag));
      forall j | 0 <= j < |kept| ensures kept[j].name !in Removed(e.tag) {
        WithoutMembers(e.attributes, Removed(e.tag), kept[j]);
      }
      WithoutNone(kept, Removed(e.tag));
    }
  }
}
