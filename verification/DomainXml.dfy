/** Domain XML as a tree of elements, in the vocabulary of ElementTree. */
module DomainXml {
  import opened Bytes

  /** Attributes keep the order in which they were set. */
  type Attrs = seq<(string, string)>

  /** Missing text and empty text print alike and are not told apart. */
  datatype Elem = Elem(tag: string, attrs: Attrs, text: string, tail: string, children: seq<Elem>)

  /** The element that ET.SubElement makes. */
  function NewElem(tag: string): Elem
  {
    Elem(tag, [], "", "", [])
  }

  // ------------------------------------------------------------- attributes

  function Get(attrs: Attrs, key: string): Option<string>
  {
    if attrs == [] then None
    else if attrs[0].0 == key then Some(attrs[0].1)
    else Get(attrs[1..], key)
  }

  function Set(attrs: Attrs, key: string, value: string): Attrs
  {
    if attrs == [] then [(key, value)]
    else if attrs[0].0 == key then [(key, value)] + attrs[1..]
    else [attrs[0]] + Set(attrs[1..], key, value)
  }

  lemma {:induction false} GetSet(attrs: Attrs, key: string, value: string, other: string)
    ensures Get(Set(attrs, key, value), other) == if other == key then Some(value) else Get(attrs, other)
  {
    if attrs != [] && attrs[0].0 != key {
      GetSet(attrs[1..], key, value, other);
    }
  }

  /** Attributes stay where they are, others with their values; a new one goes to the end. */
  lemma {:induction false} SetKeepsKeys(attrs: Attrs, key: string, value: string)
    ensures |Set(attrs, key, value)| >= |attrs|
    ensures forall i :: 0 <= i < |attrs| ==>
              Set(attrs, key, value)[i].0 == attrs[i].0 && (attrs[i].0 != key ==> Set(attrs, key, value)[i] == attrs[i])
    ensures forall i :: |attrs| <= i < |Set(attrs, key, value)| ==> Set(attrs, key, value)[i].0 == key
  {
    if attrs != [] && attrs[0].0 != key {
      SetKeepsKeys(attrs[1..], key, value);
    }
  }

  // --------------------------------------------------------------- children

  /** The position of the first child with a tag, or the number of children if there is none. */
  function Find(cs: seq<Elem>, tag: string): (i: nat)
    ensures i <= |cs|
    ensures i < |cs| ==> cs[i].tag == tag
    ensures forall j :: 0 <= j < i ==> cs[j].tag != tag
  {
    if cs == [] || cs[0].tag == tag then 0 else 1 + Find(cs[1..], tag)
  }

  /** The first position with a tag is the only one with nothing of that tag before it. */
  lemma FindIs(cs: seq<Elem>, tag: string, i: nat)
    requires i <= |cs| && (i < |cs| ==> cs[i].tag == tag)
    requires forall k :: 0 <= k < i ==> cs[k].tag != tag
    ensures Find(cs, tag) == i
  {
  }

  lemma {:induction false} FindUpdate(cs: seq<Elem>, i: nat, c: Elem, tag: string)
    requires i < |cs| && c.tag == cs[i].tag
    ensures Find(cs[i := c], tag) == Find(cs, tag)
  {
    if i == 0 {
      assert cs[i := c][1..] == cs[1..];
    } else {
      assert cs[i := c][0] == cs[0] && cs[i := c][1..] == cs[1..][i - 1 := c];
      FindUpdate(cs[1..], i - 1, c, tag);
    }
  }

  /** All children with a tag, in order: findall. */
  function Tagged(cs: seq<Elem>, tag: string): seq<Elem>
  {
    if cs == [] then []
    else (if cs[0].tag == tag then [cs[0]] else []) + Tagged(cs[1..], tag)
  }

  lemma {:induction false} FindIsFirstTagged(cs: seq<Elem>, tag: string)
    ensures Find(cs, tag) == |cs| <==> Tagged(cs, tag) == []
    ensures Find(cs, tag) < |cs| ==> Tagged(cs, tag)[0] == cs[Find(cs, tag)]
  {
    if cs != [] && cs[0].tag != tag {
      FindIsFirstTagged(cs[1..], tag);
    }
  }

  lemma {:induction false} TaggedAppend(cs: seq<Elem>, c: Elem, tag: string)
    ensures Tagged(cs + [c], tag) == Tagged(cs, tag) + (if c.tag == tag then [c] else [])
  {
    if cs == [] {
      assert cs + [c] == [c];
    } else {
      var first, last := if cs[0].tag == tag then [cs[0]] else [], if c.tag == tag then [c] else [];
      assert (cs + [c])[0] == cs[0] && (cs + [c])[1..] == cs[1..] + [c];
      TaggedAppend(cs[1..], c, tag);
      assert first + (Tagged(cs[1..], tag) + last) == (first + Tagged(cs[1..], tag)) + last;
    }
  }

  /** Replacing a child by one with the same tag shows only among the children with that tag. */
  lemma {:induction false} TaggedUpdate(cs: seq<Elem>, i: nat, c: Elem, tag: string)
    requires i < |cs| && c.tag == cs[i].tag
    ensures |Tagged(cs[i := c], tag)| == |Tagged(cs, tag)|
    ensures tag != c.tag ==> Tagged(cs[i := c], tag) == Tagged(cs, tag)
    ensures tag == c.tag && i == Find(cs, tag) ==>
              Tagged(cs, tag) != [] && Tagged(cs[i := c], tag) == Tagged(cs, tag)[0 := c]
  {
    if i == 0 {
      assert cs[i := c][1..] == cs[1..];
    } else {
      assert cs[i := c][0] == cs[0] && cs[i := c][1..] == cs[1..][i - 1 := c];
      TaggedUpdate(cs[1..], i - 1, c, tag);
    }
  }
}
