/**
 * XML elements as the lexicon code sees them, and the attribute-collecting
 * helper the two entry readers share (`extract_attribute_value_if_el_is_not_none`,
 * written out identically in odwn_classes.py and rbn_classes.py).
 */
module Xml {
  import opened Builtins

  /** An XML element, as far as the code reads it: its attributes. */
  datatype Element = Element(attrs: map<string, string>)

  /** el.get(key): the attribute's value, or None when el does not carry it. */
  function Get(el: Element, key: string): Option<string>
  {
    if key in el.attrs then Some(el.attrs[key]) else None
  }

  /** The elements of els that carry key, in order: the XPath filter `[@key]`. */
  function WithAttribute(els: seq<Element>, key: string): (r: seq<Element>)
    ensures forall i :: 0 <= i < |r| ==> key in r[i].attrs
    ensures forall el :: el in r ==> el in els
  {
    if els == [] then []
    else
      var rest := WithAttribute(els[..|els| - 1], key);
      if key in els[|els| - 1].attrs then rest + [els[|els| - 1]] else rest
  }

  /** The [@key] filter keeps exactly the elements that have the key. */
  lemma {:induction false} WithAttributeMembers(els: seq<Element>, key: string)
    ensures forall v :: (exists i :: 0 <= i < |WithAttribute(els, key)| && Get(WithAttribute(els, key)[i], key) == Some(v)) <==>
      (exists i :: 0 <= i < |els| && Get(els[i], key) == Some(v))
  {
    if els != [] {
      var init := els[..|els| - 1];
      WithAttributeMembers(init, key);
      var last := els[|els| - 1];
      assert els == init + [last];
      var fi := WithAttribute(init, key);
      var f := WithAttribute(els, key);
      assert f == (if key in last.attrs then fi + [last] else fi);
      forall v
        ensures (exists i :: 0 <= i < |f| && Get(f[i], key) == Some(v)) <==>
          (exists i :: 0 <= i < |els| && Get(els[i], key) == Some(v))
      {
        if exists i :: 0 <= i < |els| && Get(els[i], key) == Some(v) {
          var i :| 0 <= i < |els| && Get(els[i], key) == Some(v);
          if i < |init| {
            assert Get(init[i], key) == Some(v);
            var j :| 0 <= j < |fi| && Get(fi[j], key) == Some(v);
            assert f[j] == fi[j];
          } else {
            assert f[|f| - 1] == last;
          }
        }
        if exists i :: 0 <= i < |f| && Get(f[i], key) == Some(v) {
          var i :| 0 <= i < |f| && Get(f[i], key) == Some(v);
          if i < |fi| {
            assert f[i] == fi[i];
            var j :| 0 <= j < |init| && Get(init[j], key) == Some(v);
            assert els[j] == init[j];
          } else {
            assert els[|els| - 1] == last;
          }
        }
      }
    }
  }

  /**
   * The set of values the loop collects: AssertionError as soon as one
   * element lacks the attribute.
   */
  function AttributeValues(els: seq<Element>, key: string): Result<set<string>, Fault>
  {
    if els == [] then Ok({})
    else
      var values :- AttributeValues(els[..|els| - 1], key);
      match Get(els[|els| - 1], key)
      case None => Err(AssertionError)
      case Some(v) => Ok(values + {v})
  }

  /** order lists every member of values exactly once. */
  ghost predicate IsEnumeration(order: seq<string>, values: set<string>)
  {
    (forall i, j :: 0 <= i < j < |order| ==> order[i] != order[j]) &&
    (forall x :: x in order <==> x in values)
  }

  /** s is '-'.join(values) for some iteration order of the set. */
  ghost predicate JoinOf(values: set<string>, s: string)
  {
    exists order :: IsEnumeration(order, values) && Join(order, "-") == s
  }

  /** The values are collected exactly when every element carries the attribute, and they are the elements' values. */
  lemma {:induction false} AttributeValuesSpec(els: seq<Element>, key: string)
    ensures AttributeValues(els, key).Ok? <==> forall i :: 0 <= i < |els| ==> key in els[i].attrs
    ensures AttributeValues(els, key).Err? ==> AttributeValues(els, key).error == AssertionError
    ensures AttributeValues(els, key).Ok? ==>
      forall v :: v in AttributeValues(els, key).value <==>
        exists i :: 0 <= i < |els| && Get(els[i], key) == Some(v)
  {
    if els != [] {
      var init := els[..|els| - 1];
      AttributeValuesSpec(init, key);
      assert forall i :: 0 <= i < |init| ==> init[i] == els[i];
      if AttributeValues(els, key).Ok? {
        var values := AttributeValues(els, key).value;
        forall v
          ensures v in values <==> exists i :: 0 <= i < |els| && Get(els[i], key) == Some(v)
        {
          if v in values && v !in AttributeValues(init, key).value {
            assert Get(els[|els| - 1], key) == Some(v);
          }
        }
      }
    }
  }

  /** After the `[@key]` filter the collection cannot fail. */
  lemma FilteredValuesNeverFail(els: seq<Element>, key: string)
    ensures AttributeValues(WithAttribute(els, key), key).Ok?
  {
    AttributeValuesSpec(WithAttribute(els, key), key);
  }

  /** When all elements agree on one value, the joined string is that value unchanged. */
  lemma {:induction false} SingleValueJoin(v: string, s: string)
    requires JoinOf({v}, s)
    ensures s == v
  {
    var order :| IsEnumeration(order, {v}) && Join(order, "-") == s;
    assert Elements(order) == {v};
    ElementsCardinality(order);
  }

  /** Every value appears in the joined string. */
  lemma {:induction false} JoinContainsValues(order: seq<string>, i: nat)
    requires i < |order|
    ensures ContainsSubstring(Join(order, "-"), order[i])
    decreases |order|
  {
    if |order| == 1 {
      assert OccursAt(Join(order, "-"), order[i], 0);
    } else if i == 0 {
      var s := Join(order, "-");
      assert s == order[0] + "-" + Join(order[1..], "-");
      assert s[..|order[0]|] == order[0];
      assert OccursAt(s, order[0], 0);
    } else {
      JoinContainsValues(order[1..], i - 1);
      var t := Join(order[1..], "-");
      var k :| OccursAt(t, order[i], k);
      var pre := order[0] + "-";
      var s := pre + t;
      assert s == Join(order, "-");
      assert s[|pre| + k..|pre| + k + |order[i]|] == t[k..k + |order[i]|];
      assert OccursAt(s, order[i], |pre| + k);
    }
  }

  /** Lists the members of a set in some order (the order a Python set iterates in). */
  method Enumerate(values: set<string>) returns (order: seq<string>)
    ensures IsEnumeration(order, values)
  {
    order := [];
    var rest := values;
    while rest != {}
      invariant rest <= values
      invariant forall x :: x in order <==> x in values && x !in rest
      invariant forall i, j :: 0 <= i < j < |order| ==> order[i] != order[j]
      decreases |rest|
    {
      var x :| x in rest;
      order := order + [x];
      rest := rest - {x};
    }
  }

  /**
   * extract_attribute_value_if_el_is_not_none: '' for no elements; otherwise
   * the distinct values of the attribute joined with '-', failing the assert
   * when an element lacks it.
   */
  method ExtractAttributeValue(els: seq<Element>, key: string) returns (r: Result<string, Fault>)
    ensures els == [] ==> r == Ok("")
    ensures r.Err? <==> exists i :: 0 <= i < |els| && key !in els[i].attrs
    ensures r.Err? ==> r.error == AssertionError
    ensures r.Ok? ==> AttributeValues(els, key).Ok? && JoinOf(AttributeValues(els, key).value, r.value)
  {
    AttributeValuesSpec(els, key);
    if |els| == 0 {
      assert IsEnumeration([], {});
      return Ok("");
    }
    var values: set<string> := {};
    for i := 0 to |els|
      invariant forall k :: 0 <= k < i ==> key in els[k].attrs
      invariant AttributeValues(els[..i], key) == Ok(values)
    {
      var value := Get(els[i], key);
      if value.None? {
        return Err(AssertionError);
      }
      assert els[..i + 1][..i] == els[..i];
      values := values + {value.value};
    }
    assert els[..|els|] == els;
    var order := Enumerate(values);
    r := Ok(Join(order, "-"));
  }
}
