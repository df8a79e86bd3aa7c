/**
 * The "ensure" edits of dramachine.py as data: what each changes, when it is satisfied, and
 * how edits get along. Everything is proved once, by induction on edits.
 */
module Edits {
  import opened Bytes
  import opened DomainXml
  import opened MachineType

  const SRIOV_NETWORK_NAME := "sriov-net"

  datatype Edit =
    | SetAttr(key: string, value: string)      // elem.get(key) != value: elem.set(key, value)
    | InChild(tag: string, edit: Edit)         // find the first child or create it, then edit it
    | Both(first: Edit, second: Edit)          // one edit after the other
    | AddIgb                                   // the igb interface of a devices element
    | FixMachine                               // the machine type of a domain element

  // ------------------------------------------------------- igb interfaces

  predicate IsIgb(interface: Elem)
  {
    && Get(interface.attrs, "type") == Some("network")
    && Find(interface.children, "model") < |interface.children|
    && Get(interface.children[Find(interface.children, "model")].attrs, "type") == Some("igb")
  }

  function CountIgb(interfaces: seq<Elem>): nat
  {
    if interfaces == [] then 0
    else (if IsIgb(interfaces[0]) then 1 else 0) + CountIgb(interfaces[1..])
  }

  lemma {:induction false} CountIgbAppend(a: seq<Elem>, b: seq<Elem>)
    ensures CountIgb(a + b) == CountIgb(a) + CountIgb(b)
  {
    if a == [] {
      assert a + b == b;
    } else {
      assert (a + b)[1..] == a[1..] + b;
      CountIgbAppend(a[1..], b);
    }
  }

  /** The igb interfaces of a devices element. */
  function IgbIn(devices: Elem): nat
  {
    CountIgb(Tagged(devices.children, "interface"))
  }

  /** The interface that is added, attached to the SR-IOV network. */
  const IGB_INTERFACE :=
    Elem("interface", [("type", "network")], "", "",
         [Elem("source", [("network", SRIOV_NETWORK_NAME)], "", "", []),
          Elem("model", [("type", "igb")], "", "", [])])

  lemma IgbInterfaceCounts()
    ensures IsIgb(IGB_INTERFACE) && CountIgb([IGB_INTERFACE]) == 1
  {
    var cs := IGB_INTERFACE.children;
    assert Find(cs, "model") == 1 by {
      assert cs[0].tag != "model" && cs[1].tag == "model";
    }
  }

  // -------------------------------------------------------- machine type

  function Machine(typeElem: Elem): string
  {
    match Get(typeElem.attrs, "machine")
    case None => ""
    case Some(m) => m
  }

  predicate HasType(os: Elem)
  {
    Find(os.children, "type") < |os.children|
  }

  function TypeOf(os: Elem): Elem
    requires HasType(os)
  {
    os.children[Find(os.children, "type")]
  }

  /** root.find("./os/type"): the first type of the first os element that has one. */
  function OsType(oses: seq<Elem>): Option<Elem>
  {
    if oses == [] then None
    else if HasType(oses[0]) then Some(TypeOf(oses[0]))
    else OsType(oses[1..])
  }

  /** ensure_machine_type on the type element that was found. */
  function FixType(typeElem: Elem): (r: (Elem, bool))
    ensures r.0.tag == typeElem.tag && r.0.text == typeElem.text && r.0.tail == typeElem.tail
  {
    var current := Machine(typeElem);
    if Contains(current, "q35") then (typeElem, false)
    else
      var machine := NewMachine(current);
      if machine != current then (typeElem.(attrs := Set(typeElem.attrs, "machine", machine)), true)
      else (typeElem, false)
  }

  /** The position among all children of the os element that root.find("./os/type") goes into. */
  function OsPosition(cs: seq<Elem>): (i: nat)
    ensures i <= |cs|
    ensures i < |cs| ==> cs[i].tag == "os" && HasType(cs[i])
  {
    if cs == [] || (cs[0].tag == "os" && HasType(cs[0])) then 0
    else 1 + OsPosition(cs[1..])
  }

  // ---------------------------------------------------------------- apply

  /** The element after the edit, and whether the edit reports a change. */
  function Apply(ed: Edit, e: Elem): (r: (Elem, bool))
    ensures r.0.tag == e.tag && r.0.text == e.text && r.0.tail == e.tail
    decreases ed
  {
    match ed
    case SetAttr(k, v) =>
      if Get(e.attrs, k) != Some(v) then (e.(attrs := Set(e.attrs, k, v)), true) else (e, false)
    case InChild(tag, inner) =>
      var i := Find(e.children, tag);
      var created := i == |e.children|;
      var cs := if created then e.children + [NewElem(tag)] else e.children;
      var (c, modified) := Apply(inner, cs[i]);
      (e.(children := cs[i := c]), created || modified)
    case Both(a, b) =>
      var (e1, m1) := Apply(a, e);
      var (e2, m2) := Apply(b, e1);
      (e2, m1 || m2)
    case AddIgb =>
      if IgbIn(e) > 0 then (e, false) else (e.(children := e.children + [IGB_INTERFACE]), true)
    case FixMachine =>
      var i := OsPosition(e.children);
      if i == |e.children| then (e, false)
      else
        var os := e.children[i];
        var j := Find(os.children, "type");
        var (t, modified) := FixType(os.children[j]);
        (e.(children := e.children[i := os.(children := os.children[j := t])]), modified)
  }

  /** What the edit is there to make true. */
  predicate Goal(ed: Edit, e: Elem)
    decreases ed
  {
    match ed
    case SetAttr(k, v) => Get(e.attrs, k) == Some(v)
    case InChild(tag, inner) => Tagged(e.children, tag) != [] && Goal(inner, Tagged(e.children, tag)[0])
    case Both(a, b) => Goal(a, e) && Goal(b, e)
    case AddIgb => IgbIn(e) > 0
    case FixMachine =>
      var t := OsType(Tagged(e.children, "os"));
      t.Some? ==> Contains(Machine(t.value), "q35")
  }

  // ------------------------------------------------- the machine type edit

  /** Looking among all children and looking among the os elements find the same type. */
  lemma {:induction false} OsPositionFinds(cs: seq<Elem>)
    ensures OsPosition(cs) == |cs| <==> OsType(Tagged(cs, "os")).None?
    ensures OsPosition(cs) < |cs| ==> OsType(Tagged(cs, "os")) == Some(TypeOf(cs[OsPosition(cs)]))
  {
    hide HasType, TypeOf;
    if cs != [] {
      OsPositionFinds(cs[1..]);
      var rest := Tagged(cs[1..], "os");
      if cs[0].tag == "os" {
        assert ([cs[0]] + rest)[0] == cs[0] && ([cs[0]] + rest)[1..] == rest;
      } else {
        assert [] + rest == rest;
      }
    }
  }

  lemma {:induction false} OsPositionFirst(cs: seq<Elem>, k: nat)
    requires k < |cs| && k < OsPosition(cs)
    ensures !(cs[k].tag == "os" && HasType(cs[k]))
  {
    hide HasType;
    if k > 0 {
      OsPositionFirst(cs[1..], k - 1);
    }
  }

  lemma {:induction false} OsPositionIs(cs: seq<Elem>, i: nat)
    requires i <= |cs| && (i < |cs| ==> cs[i].tag == "os" && HasType(cs[i]))
    requires forall k :: 0 <= k < i ==> !(cs[k].tag == "os" && HasType(cs[k]))
    ensures OsPosition(cs) == i
  {
    hide HasType;
    if i > 0 {
      OsPositionIs(cs[1..], i - 1);
    }
  }

  lemma {:induction false} OsPositionUpdate(cs: seq<Elem>, os: Elem)
    requires OsPosition(cs) < |cs| && os.tag == "os" && HasType(os)
    ensures OsPosition(cs[OsPosition(cs) := os]) == OsPosition(cs)
  {
    var i := OsPosition(cs);
    if i > 0 {
      assert cs[i := os][0] == cs[0] && cs[i := os][1..] == cs[1..][i - 1 := os];
      OsPositionUpdate(cs[1..], os);
    }
  }

  lemma FixMachineCorrect(e: Elem)
    ensures Apply(FixMachine, e).1 <==> !Goal(FixMachine, e)
    ensures Goal(FixMachine, e) ==> Apply(FixMachine, e).0 == e
    ensures Goal(FixMachine, Apply(FixMachine, e).0)
  {
    hide Contains, NewMachine;
    OsPositionFinds(e.children);
    var i := OsPosition(e.children);
    if i < |e.children| {
      var os := e.children[i];
      var j := Find(os.children, "type");
      var t := FixType(os.children[j]).0;
      var os' := os.(children := os.children[j := t]);
      NewMachineIsQ35(Machine(os.children[j]));
      GetSet(os.children[j].attrs, "machine", NewMachine(Machine(os.children[j])), "machine");
      FindUpdate(os.children, j, t, "type");
      OsPositionUpdate(e.children, os');
      OsPositionFinds(e.children[i := os']);
      assert os.children[j := os.children[j]] == os.children;
      assert e.children[i := os] == e.children;
    }
  }

  /** What the machine edit makes of the machine attribute. */
  lemma FixMachineSets(e: Elem)
    ensures var before, after := OsType(Tagged(e.children, "os")), OsType(Tagged(Apply(FixMachine, e).0.children, "os"));
            && before.Some? == after.Some?
            && (before.Some? ==>
                  Machine(after.value) == if Contains(Machine(before.value), "q35") then Machine(before.value)
                                          else NewMachine(Machine(before.value)))
  {
    hide Contains, NewMachine, Tagged, OsType;
    OsPositionFinds(e.children);
    var i := OsPosition(e.children);
    if i < |e.children| {
      var os := e.children[i];
      var j := Find(os.children, "type");
      var t := FixType(os.children[j]).0;
      var os' := os.(children := os.children[j := t]);
      GetSet(os.children[j].attrs, "machine", NewMachine(Machine(os.children[j])), "machine");
      FindUpdate(os.children, j, t, "type");
      OsPositionUpdate(e.children, os');
      OsPositionFinds(e.children[i := os']);
    }
  }

  // --------------------------------------------------------- edits in general

  /** An edit reports a change exactly when its goal does not hold yet, and then only acts. */
  lemma {:induction false} ReportsUnmetGoal(ed: Edit, e: Elem)
    ensures Apply(ed, e).1 <==> !Goal(ed, e)
    ensures Goal(ed, e) ==> Apply(ed, e).0 == e
  {
    match ed
    case SetAttr(_, _) =>
    case InChild(tag, inner) =>
      FindIsFirstTagged(e.children, tag);
      var i := Find(e.children, tag);
      if i < |e.children| {
        ReportsUnmetGoal(inner, e.children[i]);
        assert e.children[i := e.children[i]] == e.children;
      }
    case Both(a, b) =>
      ReportsUnmetGoal(a, e);
      ReportsUnmetGoal(b, Apply(a, e).0);
    case AddIgb =>
    case FixMachine => FixMachineCorrect(e);
  }

  /** The edit leaves all children with this tag alone. */
  predicate Untouched(ed: Edit, tag: string)
  {
    match ed
    case SetAttr(_, _) => true
    case InChild(t, _) => t != tag
    case Both(a, b) => Untouched(a, tag) && Untouched(b, tag)
    case AddIgb => tag != "interface"
    case FixMachine => tag != "os"
  }

  /** What InChild does to the children: the first one with the tag is edited or appended. */
  lemma InChildTagged(tag: string, inner: Edit, e: Elem, other: string)
    ensures var after, before := Tagged(Apply(InChild(tag, inner), e).0.children, other), Tagged(e.children, other);
            if other != tag then after == before
            else if before == [] then after == [Apply(inner, NewElem(tag)).0]
            else after == before[0 := Apply(inner, before[0]).0]
  {
    hide Tagged, Find;
    FindIsFirstTagged(e.children, tag);
    var i := Find(e.children, tag);
    if i < |e.children| {
      TaggedUpdate(e.children, i, Apply(inner, e.children[i]).0, other);
    } else {
      var c := Apply(inner, NewElem(tag)).0;
      assert (e.children + [NewElem(tag)])[i := c] == e.children + [c];
      TaggedAppend(e.children, c, other);
    }
  }

  lemma {:induction false} UntouchedStays(ed: Edit, e: Elem, tag: string)
    requires Untouched(ed, tag)
    ensures Tagged(Apply(ed, e).0.children, tag) == Tagged(e.children, tag)
  {
    match ed
    case SetAttr(_, _) =>
    case InChild(t, inner) => InChildTagged(t, inner, e, tag);
    case Both(a, b) =>
      UntouchedStays(a, e, tag);
      UntouchedStays(b, Apply(a, e).0, tag);
    case AddIgb => TaggedAppend(e.children, IGB_INTERFACE, tag);
    case FixMachine =>
      var i := OsPosition(e.children);
      if i < |e.children| {
        TaggedUpdate(e.children, i, Apply(FixMachine, e).0.children[i], tag);
      }
  }

  /** Applying `b` cannot spoil what `a` has achieved. */
  predicate Compatible(a: Edit, b: Edit)
  {
    match (a, b)
    case (Both(x, y), _) => Compatible(x, b) && Compatible(y, b)
    case (_, Both(x, y)) => Compatible(a, x) && Compatible(a, y)
    case (SetAttr(k, v), SetAttr(k', v')) => k != k' || v == v'
    case (SetAttr(_, _), _) => true
    case (InChild(t, x), InChild(t', y)) => t != t' || Compatible(x, y)
    case (InChild(t, _), FixMachine) => t != "os"
    case (InChild(_, _), _) => true
    case (AddIgb, InChild(t, _)) => t != "interface"
    case (AddIgb, _) => true
    case (FixMachine, InChild(t, _)) => t != "os"
    case (FixMachine, _) => true
  }

  lemma {:induction false} CompatibleKeepsGoal(a: Edit, b: Edit, e: Elem)
    requires Compatible(a, b) && Goal(a, e)
    ensures Goal(a, Apply(b, e).0)
    decreases a, b
  {
    if a.Both? {
      CompatibleKeepsGoal(a.first, b, e);
      CompatibleKeepsGoal(a.second, b, e);
    } else if b.Both? {
      CompatibleKeepsGoal(a, b.first, e);
      CompatibleKeepsGoal(a, b.second, Apply(b.first, e).0);
    } else {
      match a
      case SetAttr(k, v) =>
        if b.SetAttr? { GetSet(e.attrs, b.key, b.value, k); }
      case InChild(t, x) =>
        if b.InChild? {
          InChildTagged(b.tag, b.edit, e, t);
          if b.tag == t { CompatibleKeepsGoal(x, b.edit, Tagged(e.children, t)[0]); }
        } else if b.AddIgb? {
          TaggedAppend(e.children, IGB_INTERFACE, t);
        } else {
          UntouchedStays(b, e, t);
        }
      case AddIgb =>
        if b.AddIgb? { ReportsUnmetGoal(b, e); } else { UntouchedStays(b, e, "interface"); }
      case FixMachine =>
        if b.FixMachine? { ReportsUnmetGoal(b, e); } else { UntouchedStays(b, e, "os"); }
    }
  }

  /** No part of the edit undoes another. */
  predicate Sound(ed: Edit)
  {
    match ed
    case InChild(_, inner) => Sound(inner)
    case Both(a, b) => Sound(a) && Sound(b) && Compatible(a, b)
    case _ => true
  }

  lemma {:induction false} ReachesGoal(ed: Edit, e: Elem)
    requires Sound(ed)
    ensures Goal(ed, Apply(ed, e).0)
  {
    match ed
    case SetAttr(k, v) => GetSet(e.attrs, k, v, k);
    case InChild(tag, inner) =>
      InChildTagged(tag, inner, e, tag);
      ReachesGoal(inner, if Tagged(e.children, tag) == [] then NewElem(tag) else Tagged(e.children, tag)[0]);
    case Both(a, b) =>
      ReachesGoal(a, e);
      ReachesGoal(b, Apply(a, e).0);
      CompatibleKeepsGoal(a, b, Apply(a, e).0);
    case AddIgb =>
      TaggedAppend(e.children, IGB_INTERFACE, "interface");
      CountIgbAppend(Tagged(e.children, "interface"), [IGB_INTERFACE]);
      IgbInterfaceCounts();
    case FixMachine => FixMachineCorrect(e);
  }

  /** Change flags are exact: an edit reports a change if and only if the tree changed. */
  lemma FlagIsExact(ed: Edit, e: Elem)
    requires Sound(ed)
    ensures Apply(ed, e).1 <==> Apply(ed, e).0 != e
  {
    ReportsUnmetGoal(ed, e);
    ReachesGoal(ed, e);
  }
}
