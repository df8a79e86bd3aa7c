/** dramachine.py on one small domain. */
module Example {
  import opened DomainXml
  import opened Edits
  import opened Dramachine
  import MachineType

  const WORKER_NAME := Elem("name", [], "minikube-m02", "", [])

  /** A worker with a name and an old machine type, and what becomes of it. */
  const PLAIN_WORKER :=
    Elem("domain", [("type", "kvm")], "", "",
         [WORKER_NAME, Elem("os", [], "", "", [Elem("type", [("arch", "x86_64"), ("machine", "pc")], "hvm", "", [])])])

  const Q35_OS := Elem("os", [], "", "", [Elem("type", [("arch", "x86_64"), ("machine", "q35")], "hvm", "", [])])

  const NEW_FEATURES := Elem("features", [], "", "", [Elem("ioapic", [("driver", "qemu")], "", "", [])])

  const NEW_IOMMU :=
    Elem("iommu", [("model", "intel")], "", "", [Elem("driver", [("intremap", "on"), ("iotlb", "on")], "", "", [])])

  const NEW_INTERFACE :=
    Elem("interface", [("type", "network")], "", "",
         [Elem("source", [("network", "sriov-net")], "", "", []), Elem("model", [("type", "igb")], "", "", [])])

  function Domain(children: seq<Elem>): Elem
  {
    Elem("domain", [("type", "kvm")], "", "", children)
  }

  /** Everything that is missing is added, in this order. */
  lemma PlainWorkerBecomes()
    ensures Selected(PLAIN_WORKER)
    ensures RunPasses(ALL_PASSES, PLAIN_WORKER).0
            == Domain([WORKER_NAME, Q35_OS, NEW_FEATURES, Elem("devices", [], "", "", [NEW_IOMMU, NEW_INTERFACE])])
  {
    hide Apply, EditOf, RunPasses, AnyTrue, Selected;
    PlainIsSelected();
    PlainMachine();
    PlainIoapic();
    PlainIommu();
    PlainIgb();
    var d1, d2 := Domain([WORKER_NAME, Q35_OS]), Domain([WORKER_NAME, Q35_OS, NEW_FEATURES]);
    var d3 := Domain([WORKER_NAME, Q35_OS, NEW_FEATURES, Elem("devices", [], "", "", [NEW_IOMMU])]);
    var d4 := Domain([WORKER_NAME, Q35_OS, NEW_FEATURES, Elem("devices", [], "", "", [NEW_IOMMU, NEW_INTERFACE])]);
    FourPasses(PLAIN_WORKER, d1, d2, d3, d4, true, true, true, true);
  }

  lemma PlainIsSelected()
    ensures Selected(PLAIN_WORKER)
  {
    FindIs(PLAIN_WORKER.children, "name", 0);
    FindIsFirstTagged(PLAIN_WORKER.children, "name");
  }

  lemma PlainMachine()
    ensures Apply(EditOf(MachinePass), PLAIN_WORKER) == (Domain([WORKER_NAME, Q35_OS]), true)
  {
    var os := PLAIN_WORKER.children[1];
    var t := os.children[0];
    assert OsPosition(PLAIN_WORKER.children) == 1 by {
      FindIs(os.children, "type", 0);
      OsPositionIs(PLAIN_WORKER.children, 1);
    }
    FindIs(os.children, "type", 0);
    assert Machine(t) == "pc" by { assert t.attrs[1..][0] == ("machine", "pc"); }
    assert !MachineType.Contains("pc", "q35");
    MachineType.AliasRename("pc");
    assert Set(t.attrs, "machine", "q35") == [("arch", "x86_64"), ("machine", "q35")] by {
      assert t.attrs[1..] == [("machine", "pc")];
    }
    assert os.children[0 := Q35_OS.children[0]] == Q35_OS.children;
    assert PLAIN_WORKER.children[1 := Q35_OS] == [WORKER_NAME, Q35_OS];
  }

  lemma PlainIoapic()
    ensures Apply(EditOf(IoapicPass), Domain([WORKER_NAME, Q35_OS]))
            == (Domain([WORKER_NAME, Q35_OS, NEW_FEATURES]), true)
  {
    var cs := [WORKER_NAME, Q35_OS];
    FindIs(cs, "features", 2);
    FindIs([], "ioapic", 0);
    InChildCreates("features", EditOf(IoapicPass).edit, Domain(cs));
    InChildCreates("ioapic", EditOf(IoapicPass).edit.edit, NewElem("features"));
    assert Apply(EditOf(IoapicPass).edit.edit, NewElem("ioapic")).0 == NEW_FEATURES.children[0];
    assert [] + [NEW_FEATURES.children[0]] == NEW_FEATURES.children;
    assert cs + [NEW_FEATURES] == [WORKER_NAME, Q35_OS, NEW_FEATURES];
  }

  lemma PlainIommu()
    ensures Apply(EditOf(IommuPass), Domain([WORKER_NAME, Q35_OS, NEW_FEATURES]))
            == (Domain([WORKER_NAME, Q35_OS, NEW_FEATURES, Elem("devices", [], "", "", [NEW_IOMMU])]), true)
  {
    var cs := [WORKER_NAME, Q35_OS, NEW_FEATURES];
    var inDevices := EditOf(IommuPass).edit;
    FindIs(cs, "devices", 3);
    NewIommu();
    hide Apply;
    InChildCreates("devices", inDevices, Domain(cs));
    assert cs + [Elem("devices", [], "", "", [NEW_IOMMU])] == [WORKER_NAME, Q35_OS, NEW_FEATURES, Elem("devices", [], "", "", [NEW_IOMMU])];
  }

  lemma InChildCreates(tag: string, inner: Edit, e: Elem)
    requires Find(e.children, tag) == |e.children|
    ensures Apply(InChild(tag, inner), e) == (e.(children := e.children + [Apply(inner, NewElem(tag)).0]), true)
  {
    hide Find;
    var c := Apply(inner, NewElem(tag)).0;
    assert (e.children + [NewElem(tag)])[|e.children| := c] == e.children + [c];
  }

  lemma NewIommu()
    ensures Apply(EditOf(IommuPass).edit, NewElem("devices")).0 == Elem("devices", [], "", "", [NEW_IOMMU])
  {
    var inIommu := EditOf(IommuPass).edit.edit;
    FindIs([], "iommu", 0);
    InChildCreates("iommu", inIommu, NewElem("devices"));
    var withModel := Elem("iommu", [("model", "intel")], "", "", []);
    assert Apply(inIommu.first, NewElem("iommu")).0 == withModel;
    FindIs([], "driver", 0);
    InChildCreates("driver", inIommu.second.edit, withModel);
    assert Apply(inIommu.second.edit, NewElem("driver")).0 == NEW_IOMMU.children[0];
    assert [] + [NEW_IOMMU.children[0]] == NEW_IOMMU.children;
    assert [] + [NEW_IOMMU] == [NEW_IOMMU];
  }

  lemma PlainIgb()
    ensures var devices := Elem("devices", [], "", "", [NEW_IOMMU]);
            Apply(EditOf(IgbPass), Domain([WORKER_NAME, Q35_OS, NEW_FEATURES, devices]))
            == (Domain([WORKER_NAME, Q35_OS, NEW_FEATURES, Elem("devices", [], "", "", [NEW_IOMMU, NEW_INTERFACE])]), true)
  {
    var devices := Elem("devices", [], "", "", [NEW_IOMMU]);
    var cs := [WORKER_NAME, Q35_OS, NEW_FEATURES, devices];
    FindIs(cs, "devices", 3);
    assert IgbIn(devices) == 0 by {
      FindIs(devices.children, "interface", 1);
      FindIsFirstTagged(devices.children, "interface");
    }
    assert devices.children + [IGB_INTERFACE] == [NEW_IOMMU, NEW_INTERFACE];
    assert cs[3 := Elem("devices", [], "", "", [NEW_IOMMU, NEW_INTERFACE])]
        == [WORKER_NAME, Q35_OS, NEW_FEATURES, Elem("devices", [], "", "", [NEW_IOMMU, NEW_INTERFACE])];
  }
}
