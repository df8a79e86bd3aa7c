/** Elements that are changed in place, and the ensure functions of dramachine.py on them. */
module ElementTree {
  import opened Bytes
  import DomainXml
  import Edits
  import Dramachine
  import MachineType

  type Elem = DomainXml.Elem

  /** An ElementTree element. `tree` is the value of the whole subtree, `repr` its objects. */
  class Element {
    const tag: string
    var attrib: DomainXml.Attrs
    var text: string
    var tail: string
    var children: seq<Element>
    ghost var tree: Elem
    ghost var repr: set<Element>

    ghost predicate Valid()
      reads this, repr
      decreases repr
    {
      && this in repr
      && tag == tree.tag && attrib == tree.attrs && text == tree.text && tail == tree.tail
      && |children| == |tree.children|
      && (forall k :: 0 <= k < |children| ==>
            && children[k] in repr
            && children[k].repr <= repr
            && this !in children[k].repr
            && children[k].Valid()
            && children[k].tree == tree.children[k])
      && (forall j, k :: 0 <= j < k < |children| ==> children[j].repr !! children[k].repr)
    }

    constructor (tag: string, attrib: DomainXml.Attrs)
      ensures Valid() && fresh(repr)
      ensures tree == Elem.Elem(tag, attrib, "", "", [])
    {
      this.tag, this.attrib, text, tail, children := tag, attrib, "", "", [];
      tree, repr := Elem.Elem(tag, attrib, "", "", []), {this};
    }

    /** elem.set(key, value). */
    method Set(key: string, value: string)
      requires Valid()
      modifies this
      ensures Valid() && repr == old(repr)
      ensures tree == old(tree).(attrs := DomainXml.Set(old(tree).attrs, key, value))
    {
      attrib := DomainXml.Set(attrib, key, value);
      tree := tree.(attrs := attrib);
    }

    /** elem.append(child), as ET.SubElement does it with a new child. */
    method Append(child: Element)
      requires Valid() && child.Valid() && child.repr !! repr
      modifies this
      ensures Valid() && repr == old(repr) + child.repr
      ensures children == old(children) + [child]
      ensures tree == old(tree).(children := old(tree).children + [child.tree])
    {
      children := children + [child];
      tree := tree.(children := tree.children + [child.tree]);
      repr := repr + child.repr;
    }

    /** Everything holds except that the `i`-th child has been changed since `tree` was set. */
    ghost predicate ValidBut(i: nat)
      reads *
    {
      && this in repr
      && tag == tree.tag && attrib == tree.attrs && text == tree.text && tail == tree.tail
      && i < |children| == |tree.children|
      && children[i].Valid()
      && (forall k :: 0 <= k < |children| ==> this !in children[k].repr)
      && (forall k :: 0 <= k < |children| && k != i ==>
            && children[k] in repr
            && children[k].repr <= repr
            && children[k].Valid()
            && children[k].tree == tree.children[k])
      && (forall j, k :: 0 <= j < k < |children| ==> children[j].repr !! children[k].repr)
    }

    /** What a change below the `i`-th child cannot reach. */
    lemma Apart(i: nat)
      requires Valid() && i < |children|
      ensures this !in children[i].repr && children[i].Valid()
      ensures forall k :: 0 <= k < |children| && k != i ==> children[k].Valid() && children[k].repr !! children[i].repr
    {
    }

    /** Bring the subtree value up to date after a change below the `i`-th child. */
    ghost method Refresh(i: nat)
      requires ValidBut(i)
      modifies this`tree, this`repr
      ensures Valid() && repr == old(repr) + children[i].repr
      ensures tree == old(tree).(children := old(tree).children[i := children[i].tree])
    {
      tree := tree.(children := tree.children[i := children[i].tree]);
      repr := repr + children[i].repr;
    }

    /** elem.find(tag), as a position; the number of children stands for None. */
    method FindIndex(tag: string) returns (i: nat)
      requires Valid()
      ensures i == DomainXml.Find(tree.children, tag) <= |children|
    {
      i := 0;
      while i < |children| && children[i].tag != tag
        invariant i <= |children|
        invariant forall k :: 0 <= k < i ==> tree.children[k].tag != tag
      {
        i := i + 1;
      }
      DomainXml.FindIs(tree.children, tag, i);
    }

    /** Find the first child with a tag or, where there is none, append a new one. */
    method FindOrCreate(tag: string) returns (i: nat, created: bool)
      requires Valid()
      modifies this
      ensures Valid() && fresh(repr - old(repr))
      ensures i == DomainXml.Find(old(tree).children, tag) < |children|
      ensures created <==> i == |old(tree).children|
      ensures tree == old(tree).(children := if created then old(tree).children + [DomainXml.NewElem(tag)] else old(tree).children)
    {
      i := FindIndex(tag);
      created := i == |children|;
      if created {
        var child := new Element(tag, []);
        Append(child);
      }
    }

    /** Set an attribute unless it already has the value. */
    method SetIfDifferent(key: string, value: string) returns (modified: bool)
      requires Valid()
      modifies this
      ensures Valid() && repr == old(repr)
      ensures (tree, modified) == Edits.Apply(Edits.SetAttr(key, value), old(tree))
    {
      modified := DomainXml.Get(attrib, key) != Some(value);
      if modified {
        Set(key, value);
      }
    }
  }

  /** The children among which InChild works: the old ones, or one more. */
  function ChildrenFor(tag: string, e: Elem): seq<Elem>
  {
    if DomainXml.Find(e.children, tag) == |e.children| then e.children + [DomainXml.NewElem(tag)] else e.children
  }

  lemma ApplyInChild(tag: string, inner: Edits.Edit, e: Elem)
    ensures var i, cs := DomainXml.Find(e.children, tag), ChildrenFor(tag, e);
            && i < |cs|
            && Edits.Apply(Edits.InChild(tag, inner), e)
               == (e.(children := cs[i := Edits.Apply(inner, cs[i]).0]), i == |e.children| || Edits.Apply(inner, cs[i]).1)
  {
  }

  // ------------------------------------------------------------- ensure_ioapic

  method EnsureIoapic(root: Element) returns (modified: bool)
    requires root.Valid()
    modifies root.repr
    ensures root.Valid() && fresh(root.repr - old(root.repr))
    ensures (root.tree, modified) == Edits.Apply(Dramachine.EditOf(Dramachine.IoapicPass), old(root.tree))
  {
    hide Edits.Apply, DomainXml.Find;
    ApplyInChild("features", Dramachine.EditOf(Dramachine.IoapicPass).edit, root.tree);
    var i, created := root.FindOrCreate("features");
    root.Apart(i);
    modified := EnsureIoapicIn(root.children[i]);
    root.Refresh(i);
    modified := created || modified;
  }

  method EnsureIoapicIn(features: Element) returns (modified: bool)
    requires features.Valid()
    modifies features.repr
    ensures features.Valid() && fresh(features.repr - old(features.repr))
    ensures (features.tree, modified) == Edits.Apply(Dramachine.EditOf(Dramachine.IoapicPass).edit, old(features.tree))
  {
    hide Edits.Apply, DomainXml.Find;
    ApplyInChild("ioapic", Dramachine.EditOf(Dramachine.IoapicPass).edit.edit, features.tree);
    var i, created := features.FindOrCreate("ioapic");
    features.Apart(i);
    modified := features.children[i].SetIfDifferent("driver", "qemu");
    features.Refresh(i);
    modified := created || modified;
  }

  // -------------------------------------------------------------- ensure_iommu

  const IN_DEVICES := Dramachine.EditOf(Dramachine.IommuPass).edit
  const IN_IOMMU := IN_DEVICES.edit
  const IN_DRIVER := IN_IOMMU.second.edit

  method EnsureIommu(root: Element) returns (modified: bool)
    requires root.Valid()
    modifies root.repr
    ensures root.Valid() && fresh(root.repr - old(root.repr))
    ensures (root.tree, modified) == Edits.Apply(Dramachine.EditOf(Dramachine.IommuPass), old(root.tree))
  {
    hide Edits.Apply, DomainXml.Find;
    ApplyInChild("devices", IN_DEVICES, root.tree);
    var i, created := root.FindOrCreate("devices");
    root.Apart(i);
    modified := EnsureIommuIn(root.children[i]);
    root.Refresh(i);
    modified := created || modified;
  }

  method EnsureIommuIn(devices: Element) returns (modified: bool)
    requires devices.Valid()
    modifies devices.repr
    ensures devices.Valid() && fresh(devices.repr - old(devices.repr))
    ensures (devices.tree, modified) == Edits.Apply(IN_DEVICES, old(devices.tree))
  {
    hide Edits.Apply, DomainXml.Find;
    ApplyInChild("iommu", IN_IOMMU, devices.tree);
    var i, created := devices.FindOrCreate("iommu");
    devices.Apart(i);
    modified := ConfigureIommu(devices.children[i]);
    devices.Refresh(i);
    modified := created || modified;
  }

  lemma ApplyBoth(a: Edits.Edit, b: Edits.Edit, e: Elem)
    ensures var r := Edits.Apply(a, e);
            Edits.Apply(Edits.Both(a, b), e) == (Edits.Apply(b, r.0).0, r.1 || Edits.Apply(b, r.0).1)
  {
  }

  method ConfigureIommu(iommu: Element) returns (modified: bool)
    requires iommu.Valid()
    modifies iommu.repr
    ensures iommu.Valid() && fresh(iommu.repr - old(iommu.repr))
    ensures (iommu.tree, modified) == Edits.Apply(IN_IOMMU, old(iommu.tree))
  {
    hide Edits.Apply, DomainXml.Find;
    ApplyBoth(IN_IOMMU.first, IN_IOMMU.second, iommu.tree);
    modified := iommu.SetIfDifferent("model", "intel");
    var inDriver := EnsureDriver(iommu);
    modified := modified || inDriver;
  }

  method EnsureDriver(iommu: Element) returns (modified: bool)
    requires iommu.Valid()
    modifies iommu.repr
    ensures iommu.Valid() && fresh(iommu.repr - old(iommu.repr))
    ensures (iommu.tree, modified) == Edits.Apply(IN_IOMMU.second, old(iommu.tree))
  {
    hide Edits.Apply, DomainXml.Find;
    ApplyInChild("driver", IN_DRIVER, iommu.tree);
    var i, created := iommu.FindOrCreate("driver");
    iommu.Apart(i);
    modified := ConfigureDriver(iommu.children[i]);
    iommu.Refresh(i);
    modified := created || modified;
  }

  method ConfigureDriver(driver: Element) returns (modified: bool)
    requires driver.Valid()
    modifies driver
    ensures driver.Valid() && driver.repr == old(driver.repr)
    ensures (driver.tree, modified) == Edits.Apply(IN_DRIVER, old(driver.tree))
  {
    hide Edits.Apply;
    ApplyBoth(IN_DRIVER.first, IN_DRIVER.second, driver.tree);
    var intremap := driver.SetIfDifferent("intremap", "on");
    var iotlb := driver.SetIfDifferent("iotlb", "on");
    modified := intremap || iotlb;
  }

  // ------------------------------------------------------ ensure_igb_interface

  method EnsureIgbInterface(root: Element) returns (modified: bool)
    requires root.Valid()
    modifies root.repr
    ensures root.Valid() && fresh(root.repr - old(root.repr))
    ensures (root.tree, modified) == Edits.Apply(Dramachine.EditOf(Dramachine.IgbPass), old(root.tree))
  {
    hide Edits.Apply, DomainXml.Find, Edits.IgbIn;
    ApplyInChild("devices", Edits.AddIgb, root.tree);
    var i, created := root.FindOrCreate("devices");
    ghost var devices := root.children[i].tree;
    ApplyAddIgb(devices);
    var found := HasIgb(root.children[i]);
    if found {
      Dramachine.NoIgbInNew();
      assert !created;
      assert root.tree.children[i := devices] == root.tree.children;
      return false;
    }
    AddIgbBelow(root, i);
    return true;
  }

  method AddIgbBelow(root: Element, i: nat)
    requires root.Valid() && i < |root.children|
    modifies root.repr
    ensures root.Valid() && fresh(root.repr - old(root.repr))
    ensures var devices := old(root.tree).children[i];
            root.tree == old(root.tree).(children := old(root.tree).children[i :=
                                           devices.(children := devices.children + [Edits.IGB_INTERFACE])])
  {
    root.Apart(i);
    AddIgbInterface(root.children[i]);
    root.Refresh(i);
  }

  lemma ApplyAddIgb(devices: Elem)
    ensures Edits.Apply(Edits.AddIgb, devices)
            == if Edits.IgbIn(devices) > 0 then (devices, false)
               else (devices.(children := devices.children + [Edits.IGB_INTERFACE]), true)
  {
  }

  /** What one more child adds to the number of igb interfaces. */
  lemma CountStep(cs: seq<Elem>, i: nat)
    requires i < |cs|
    ensures Edits.CountIgb(DomainXml.Tagged(cs[..i + 1], "interface"))
            == Edits.CountIgb(DomainXml.Tagged(cs[..i], "interface"))
               + if cs[i].tag == "interface" && Edits.IsIgb(cs[i]) then 1 else 0
  {
    hide Edits.IsIgb;
    assert cs[..i + 1] == cs[..i] + [cs[i]];
    DomainXml.TaggedAppend(cs[..i], cs[i], "interface");
    Edits.CountIgbAppend(DomainXml.Tagged(cs[..i], "interface"), if cs[i].tag == "interface" then [cs[i]] else []);
  }

  /** An igb interface among the first children is one among all. */
  lemma {:induction false} IgbInPrefix(cs: seq<Elem>, n: nat)
    requires n <= |cs|
    ensures Edits.CountIgb(DomainXml.Tagged(cs[..n], "interface")) <= Edits.CountIgb(DomainXml.Tagged(cs, "interface"))
    decreases |cs| - n
  {
    hide Edits.CountIgb, DomainXml.Tagged;
    if n == |cs| {
      assert cs[..n] == cs;
    } else {
      CountStep(cs, n);
      IgbInPrefix(cs, n + 1);
    }
  }

  /** The loop over devices.findall("interface"). */
  method HasIgb(devices: Element) returns (found: bool)
    requires devices.Valid()
    ensures found <==> Edits.IgbIn(devices.tree) > 0
  {
    ghost var cs := devices.tree.children;
    assert cs[..|cs|] == cs;
    assert Edits.CountIgb(DomainXml.Tagged(cs[..0], "interface")) == 0;
    hide Edits.IsIgb, Edits.CountIgb, DomainXml.Tagged;
    for i := 0 to |devices.children|
      invariant Edits.CountIgb(DomainXml.Tagged(cs[..i], "interface")) == 0
    {
      CountStep(cs, i);
      var interface := devices.children[i];
      if interface.tag == "interface" {
        var igb := IsIgbInterface(interface);
        if igb {
          IgbInPrefix(cs, i + 1);
          return true;
        }
      }
    }
    return false;
  }

  method IsIgbInterface(interface: Element) returns (igb: bool)
    requires interface.Valid()
    ensures igb <==> Edits.IsIgb(interface.tree)
  {
    if DomainXml.Get(interface.attrib, "type") != Some("network") {
      return false;
    }
    var i := interface.FindIndex("model");
    if i == |interface.children| {
      return false;
    }
    var model := interface.children[i];
    return DomainXml.Get(model.attrib, "type") == Some("igb");
  }

  method AddIgbInterface(devices: Element)
    requires devices.Valid()
    modifies devices
    ensures devices.Valid() && fresh(devices.repr - old(devices.repr))
    ensures devices.tree == old(devices.tree).(children := old(devices.tree).children + [Edits.IGB_INTERFACE])
  {
    var newInterface := NewIgbInterface();
    devices.Append(newInterface);
  }

  method NewIgbInterface() returns (newInterface: Element)
    ensures newInterface.Valid() && fresh(newInterface.repr)
    ensures newInterface.tree == Edits.IGB_INTERFACE
  {
    newInterface := new Element("interface", [("type", "network")]);
    var source := new Element("source", [("network", Edits.SRIOV_NETWORK_NAME)]);
    newInterface.Append(source);
    var model := new Element("model", [("type", "igb")]);
    newInterface.Append(model);
  }

  // ------------------------------------------------------- ensure_machine_type

  /** The path search root.find("./os/type"): the position of the os element it goes into. */
  method FindOsWithType(root: Element) returns (i: nat)
    requires root.Valid()
    ensures i == Edits.OsPosition(root.tree.children) <= |root.children|
  {
    i := 0;
    while i < |root.children|
      invariant i <= |root.children|
      invariant forall k :: 0 <= k < i ==> !(root.tree.children[k].tag == "os" && Edits.HasType(root.tree.children[k]))
    {
      if root.children[i].tag == "os" {
        var j := root.children[i].FindIndex("type");
        if j < |root.children[i].children| {
          break;
        }
      }
      i := i + 1;
    }
    Edits.OsPositionIs(root.tree.children, i);
  }

  lemma ApplyFixMachine(e: Elem)
    ensures var i := Edits.OsPosition(e.children);
            Edits.Apply(Edits.FixMachine, e)
            == if i == |e.children| then (e, false)
               else
                 var os := e.children[i];
                 var j := DomainXml.Find(os.children, "type");
                 var r := Edits.FixType(os.children[j]);
                 (e.(children := e.children[i := os.(children := os.children[j := r.0])]), r.1)
  {
  }

  method EnsureMachineType(root: Element) returns (modified: bool)
    requires root.Valid()
    modifies root.repr
    ensures root.Valid() && fresh(root.repr - old(root.repr))
    ensures (root.tree, modified) == Edits.Apply(Edits.FixMachine, old(root.tree))
  {
    hide DomainXml.Find, Edits.OsPosition, Edits.Apply, Edits.FixType;
    ApplyFixMachine(root.tree);
    var i := FindOsWithType(root);
    if i == |root.children| {
      return false;
    }
    root.Apart(i);
    modified := FixTypeIn(root.children[i]);
    root.Refresh(i);
  }

  method FixTypeIn(os: Element) returns (modified: bool)
    requires os.Valid() && Edits.HasType(os.tree)
    modifies os.repr
    ensures os.Valid() && os.repr == old(os.repr)
    ensures var j := DomainXml.Find(old(os.tree).children, "type");
            && os.tree == old(os.tree).(children := old(os.tree).children[j := Edits.FixType(old(os.tree).children[j]).0])
            && modified == Edits.FixType(old(os.tree).children[j]).1
  {
    hide DomainXml.Find, Edits.FixType;
    var j := os.FindIndex("type");
    modified := FixTypeElement(os.children[j]);
    os.Refresh(j);
  }

  method FixTypeElement(typeElem: Element) returns (modified: bool)
    requires typeElem.Valid()
    modifies typeElem
    ensures typeElem.Valid() && typeElem.repr == old(typeElem.repr)
    ensures (typeElem.tree, modified) == Edits.FixType(old(typeElem.tree))
  {
    var machine := DomainXml.Get(typeElem.attrib, "machine");
    var currentMachine := if machine.None? then "" else machine.value;
    if MachineType.Contains(currentMachine, "q35") {
      return false;
    }
    var newMachine := MachineType.NewMachine(currentMachine);
    if newMachine != currentMachine {
      typeElem.Set("machine", newMachine);
      return true;
    }
    return false;
  }

  // ---------------------------------------------------------- all mutations

  /** The four mutations of process_xml_stream, in its order, and its changes_made. */
  method MutateDomain(root: Element) returns (changesMade: bool)
    requires root.Valid()
    modifies root.repr
    ensures root.Valid() && fresh(root.repr - old(root.repr))
    ensures root.tree == Dramachine.RunPasses(Dramachine.ALL_PASSES, old(root.tree)).0
    ensures changesMade == Dramachine.AnyTrue(Dramachine.RunPasses(Dramachine.ALL_PASSES, old(root.tree)).1)
  {
    hide Edits.Apply, Element.Valid;
    ghost var t0 := root.tree;
    changesMade := false;
    var machine := EnsureMachineType(root);
    if machine { changesMade := true; }
    ghost var t1 := root.tree;
    var ioapic := EnsureIoapic(root);
    if ioapic { changesMade := true; }
    ghost var t2 := root.tree;
    var iommu := EnsureIommu(root);
    if iommu { changesMade := true; }
    ghost var t3 := root.tree;
    var igb := EnsureIgbInterface(root);
    if igb { changesMade := true; }
    Dramachine.FourPasses(t0, t1, t2, t3, root.tree, machine, ioapic, iommu, igb);
  }
}
