/**
 * What edits leave alone: everything outside the few places that a search from the domain
 * element finds.
 */
module Extension {
  import opened DomainXml
  import opened Edits
  import MachineType

  /**
   * Where changes are allowed: attributes of the element itself, places below it (each the
   * child that a search for the tag finds or, where there is none, a new one), and whether an
   * igb interface may be added.
   */
  datatype Scope = Scope(attrs: set<string>, below: map<string, Scope>, igb: bool)

  /** The child that a search for a tag goes into; for os that is the first one with a type. */
  function Pick(cs: seq<Elem>, tag: string): (i: nat)
    ensures i <= |cs| && (i < |cs| ==> cs[i].tag == tag)
  {
    if tag == "os" then OsPosition(cs) else Find(cs, tag)
  }

  /** A search of the scope goes into the `i`-th child. */
  predicate Found(cs: seq<Elem>, i: nat, scope: Scope)
    requires i < |cs|
    ensures Found(cs, i, scope) ==> cs[i].tag in scope.below
  {
    cs[i].tag in scope.below && Pick(cs, cs[i].tag) == i
  }

  /** Attribute names stay in place, new ones stand behind, and only some may have other values. */
  ghost predicate AttrsKept(before: Attrs, after: Attrs, changeable: set<string>)
  {
    && |before| <= |after|
    && (forall i :: 0 <= i < |before| ==> after[i].0 == before[i].0 && (before[i].0 !in changeable ==> after[i] == before[i]))
    && (forall i :: |before| <= i < |after| ==> after[i].0 in changeable)
  }

  lemma AttrsStay(before: Attrs, after: Attrs, changeable: set<string>)
    requires AttrsKept(before, after, changeable)
    ensures changeable == {} ==> after == before
  {
    if |before| < |after| {
      assert after[|before|].0 in changeable;
    }
  }

  /** `e'` is `e` with changes in scope only. */
  ghost predicate Extends(e: Elem, e': Elem, scope: Scope)
    decreases e', 1
  {
    && e'.tag == e.tag && e'.text == e.text && e'.tail == e.tail
    && AttrsKept(e.attrs, e'.attrs, scope.attrs)
    && |e.children| <= |e'.children|
    && (forall i :: 0 <= i < |e.children| ==> OldChild(e, e', scope, i))
    && (forall i :: |e.children| <= i < |e'.children| ==> NewChild(e', scope, i))
  }

  /** A child that no search of the scope finds is the same as before, at the same place. */
  ghost predicate OldChild(e: Elem, e': Elem, scope: Scope, i: nat)
    requires i < |e.children| <= |e'.children|
    decreases e', 0
  {
    if Found(e.children, i, scope) then Extends(e.children[i], e'.children[i], scope.below[e.children[i].tag])
    else e'.children[i] == e.children[i]
  }

  /**
   * A new child is the igb interface, or the one child that a search now finds, grown from an
   * empty element. An os element is never created.
   */
  ghost predicate NewChild(e': Elem, scope: Scope, i: nat)
    requires i < |e'.children|
    decreases e', 0
  {
    var c := e'.children[i];
    || (c == IGB_INTERFACE && scope.igb && "interface" !in scope.below)
    || (c.tag != "os" && Found(e'.children, i, scope) && Extends(NewElem(c.tag), c, scope.below[c.tag]))
  }

  lemma {:induction false} ExtendsItself(e: Elem, scope: Scope)
    ensures Extends(e, e, scope)
  {
    hide Found;
    forall i | 0 <= i < |e.children| ensures OldChild(e, e, scope, i) {
      if Found(e.children, i, scope) {
        ExtendsItself(e.children[i], scope.below[e.children[i].tag]);
      }
    }
  }

  // ------------------------------------------ searches find the same places

  lemma TagKept(e: Elem, e': Elem, scope: Scope, i: nat)
    requires i < |e.children| <= |e'.children| && OldChild(e, e', scope, i)
    ensures e'.children[i].tag == e.children[i].tag
  {
    hide Found;
  }

  lemma HasTypeKept(os: Elem, os': Elem, scope: Scope)
    requires Extends(os, os', scope) && HasType(os)
    ensures HasType(os')
  {
    hide Find, OldChild, NewChild;
    var k := Find(os.children, "type");
    TagKept(os, os', scope, k);
    assert os'.children[k].tag == "type";
  }

  lemma FindKept(cs: seq<Elem>, cs': seq<Elem>, tag: string, i: nat)
    requires i < |cs| <= |cs'| && forall j :: 0 <= j < |cs| ==> cs'[j].tag == cs[j].tag
    ensures Find(cs', tag) == i <==> Find(cs, tag) == i
  {
    hide Find;
    var k := Find(cs, tag);
    if k < |cs| {
      FindIs(cs', tag, k);
    }
  }

  lemma OsPositionKept(e: Elem, e': Elem, scope: Scope, i: nat)
    requires Extends(e, e', scope) && i < |e.children|
    ensures OsPosition(e'.children) == i <==> OsPosition(e.children) == i
  {
    hide HasType, Find, OsPosition, Extends;
    var cs, cs', p := e.children, e'.children, OsPosition(e.children);
    assert |cs| <= |cs'| && forall k :: 0 <= k < |cs| ==> OldChild(e, e', scope, k) by { ExtendsMeans(e, e', scope); }
    forall k | 0 <= k < |cs| && k < p ensures !(cs'[k].tag == "os" && HasType(cs'[k])) {
      OsPositionFirst(cs, k);
      TagKept(e, e', scope, k);
    }
    if p < |cs| {
      TagKept(e, e', scope, p);
      if Found(cs, p, scope) { HasTypeKept(cs[p], cs'[p], scope.below["os"]); }
      OsPositionIs(cs', p);
    }
  }

  lemma ExtendsMeans(e: Elem, e': Elem, scope: Scope)
    requires Extends(e, e', scope)
    ensures |e.children| <= |e'.children|
    ensures forall i :: 0 <= i < |e.children| ==> OldChild(e, e', scope, i)
  {
  }

  lemma FoundKept(e: Elem, e': Elem, scope: Scope, i: nat)
    requires Extends(e, e', scope) && i < |e.children| <= |e'.children|
    ensures e'.children[i].tag == e.children[i].tag
    ensures Found(e'.children, i, scope) <==> Found(e.children, i, scope)
  {
    hide Find, OsPosition, Extends, OldChild;
    ExtendsMeans(e, e', scope);
    forall j | 0 <= j < |e.children| ensures e'.children[j].tag == e.children[j].tag { TagKept(e, e', scope, j); }
    FindKept(e.children, e'.children, e.children[i].tag, i);
    OsPositionKept(e, e', scope, i);
  }

  lemma {:induction false} ExtendsTransitive(a: Elem, b: Elem, c: Elem, scope: Scope)
    requires Extends(a, b, scope) && Extends(b, c, scope)
    ensures Extends(a, c, scope)
    decreases c
  {
    hide Found;
    forall i | 0 <= i < |a.children| ensures OldChild(a, c, scope, i) {
      assert OldChild(a, b, scope, i) && OldChild(b, c, scope, i);
      FoundKept(a, b, scope, i);
      if Found(a.children, i, scope) {
        ExtendsTransitive(a.children[i], b.children[i], c.children[i], scope.below[a.children[i].tag]);
      }
    }
    forall i | |a.children| <= i < |c.children| ensures NewChild(c, scope, i) {
      if i < |b.children| {
        assert NewChild(b, scope, i) && OldChild(b, c, scope, i);
        FoundKept(b, c, scope, i);
        if Found(b.children, i, scope) {
          ExtendsTransitive(NewElem(b.children[i].tag), b.children[i], c.children[i], scope.below[b.children[i].tag]);
        }
      }
    }
  }

  // ------------------------------------------------------------------- edits

  /** The edit works within the scope. */
  predicate Covers(scope: Scope, ed: Edit)
    decreases ed
  {
    match ed
    case SetAttr(k, _) => k in scope.attrs
    case InChild(t, inner) => t != "os" && t in scope.below && Covers(scope.below[t], inner)
    case Both(a, b) => Covers(scope, a) && Covers(scope, b)
    case AddIgb => scope.igb && "interface" !in scope.below
    case FixMachine =>
      && "os" in scope.below
      && "type" in scope.below["os"].below
      && "machine" in scope.below["os"].below["type"].attrs
  }

  lemma SetAttrExtends(e: Elem, k: string, v: string, scope: Scope)
    requires k in scope.attrs
    ensures Extends(e, e.(attrs := Set(e.attrs, k, v)), scope)
  {
    hide Found, Set;
    var e' := e.(attrs := Set(e.attrs, k, v));
    SetKeepsKeys(e.attrs, k, v);
    forall i | 0 <= i < |e.children| ensures OldChild(e, e', scope, i) {
      if Found(e.children, i, scope) { ExtendsItself(e.children[i], scope.below[e.children[i].tag]); }
    }
  }

  /** Changing the child that a search finds. */
  lemma ExtendsInChild(e: Elem, i: nat, c: Elem, scope: Scope)
    requires i < |e.children| && Found(e.children, i, scope)
    requires Extends(e.children[i], c, scope.below[e.children[i].tag])
    ensures Extends(e, e.(children := e.children[i := c]), scope)
  {
    hide Found;
    var e' := e.(children := e.children[i := c]);
    forall j | 0 <= j < |e.children| ensures OldChild(e, e', scope, j) {
      if j != i && Found(e.children, j, scope) { ExtendsItself(e.children[j], scope.below[e.children[j].tag]); }
    }
  }

  /** Adding a child behind the others. */
  lemma ExtendsByChild(e: Elem, c: Elem, scope: Scope)
    requires NewChild(e.(children := e.children + [c]), scope, |e.children|)
    ensures Extends(e, e.(children := e.children + [c]), scope)
  {
    hide Found, NewChild;
    var e' := e.(children := e.children + [c]);
    forall j | 0 <= j < |e.children| ensures OldChild(e, e', scope, j) {
      if Found(e.children, j, scope) { ExtendsItself(e.children[j], scope.below[e.children[j].tag]); }
    }
  }

  /** An edit changes nothing outside its scope. */
  lemma {:induction false} EditsOnlyExtend(ed: Edit, e: Elem, scope: Scope)
    requires Covers(scope, ed)
    ensures Extends(e, Apply(ed, e).0, scope)
    decreases ed
  {
    hide Extends;
    match ed
    case SetAttr(k, v) =>
      ExtendsItself(e, scope);
      SetAttrExtends(e, k, v, scope);
    case InChild(tag, inner) => InChildExtends(tag, inner, e, scope);
    case Both(a, b) =>
      EditsOnlyExtend(a, e, scope);
      EditsOnlyExtend(b, Apply(a, e).0, scope);
      ExtendsTransitive(e, Apply(a, e).0, Apply(ed, e).0, scope);
    case AddIgb =>
      ExtendsItself(e, scope);
      ExtendsByChild(e, IGB_INTERFACE, scope);
    case FixMachine => FixMachineExtends(e, scope);
  }

  lemma {:induction false} InChildExtends(tag: string, inner: Edit, e: Elem, scope: Scope)
    requires Covers(scope, InChild(tag, inner))
    ensures Extends(e, Apply(InChild(tag, inner), e).0, scope)
    decreases InChild(tag, inner), 0
  {
    hide Extends, Find;
    var i := Find(e.children, tag);
    if i < |e.children| {
      EditsOnlyExtend(inner, e.children[i], scope.below[tag]);
      ExtendsInChild(e, i, Apply(inner, e.children[i]).0, scope);
    } else {
      var c := Apply(inner, NewElem(tag)).0;
      EditsOnlyExtend(inner, NewElem(tag), scope.below[tag]);
      var cs := e.children + [c];
      assert (e.children + [NewElem(tag)])[i := c] == cs;
      FindIs(cs, tag, i);
      ExtendsByChild(e, c, scope);
    }
  }

  lemma FixMachineExtends(e: Elem, scope: Scope)
    requires Covers(scope, FixMachine)
    ensures Extends(e, Apply(FixMachine, e).0, scope)
  {
    hide Extends, Find, OsPosition, MachineType.Contains, MachineType.NewMachine;
    ExtendsItself(e, scope);
    var i := OsPosition(e.children);
    if i < |e.children| {
      var os := e.children[i];
      var j := Find(os.children, "type");
      var t := os.children[j];
      var inOs := scope.below["os"];
      ExtendsItself(t, inOs.below["type"]);
      SetAttrExtends(t, "machine", MachineType.NewMachine(Machine(t)), inOs.below["type"]);
      ExtendsInChild(os, j, FixType(t).0, inOs);
      ExtendsInChild(e, i, os.(children := os.children[j := FixType(t).0]), scope);
    }
  }
}
