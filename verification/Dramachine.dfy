/** dramachine.py: the four passes, in any order and any number, and the stream filter. */
module Dramachine {
  import opened Bytes
  import opened DomainXml
  import opened Edits
  import opened Extension
  import MachineType

  datatype Pass = MachinePass | IoapicPass | IommuPass | IgbPass

  /** What each ensure function does to the domain element. */
  function EditOf(p: Pass): Edit
  {
    match p
    case MachinePass => FixMachine
    case IoapicPass => InChild("features", InChild("ioapic", SetAttr("driver", "qemu")))
    case IommuPass =>
      InChild("devices",
              InChild("iommu",
                      Both(SetAttr("model", "intel"),
                           InChild("driver", Both(SetAttr("intremap", "on"), SetAttr("iotlb", "on"))))))
    case IgbPass => InChild("devices", AddIgb)
  }

  lemma PassesAreSound(p: Pass, q: Pass)
    ensures Sound(EditOf(p)) && Compatible(EditOf(p), EditOf(q))
    ensures Untouched(EditOf(p), "name")
  {
  }

  // ----------------------------------------------------------- runs of passes

  /** The domain after some passes, and what each of them returned. */
  function RunPasses(ps: seq<Pass>, root: Elem): (r: (Elem, seq<bool>))
    ensures |r.1| == |ps|
    decreases |ps|
  {
    if ps == [] then (root, [])
    else
      var (root', modified) := Apply(EditOf(ps[0]), root);
      var (final, flags) := RunPasses(ps[1..], root');
      (final, [modified] + flags)
  }

  lemma RunPassesCons(p: Pass, ps: seq<Pass>, root: Elem)
    ensures var (root', modified) := Apply(EditOf(p), root);
            RunPasses([p] + ps, root) == (RunPasses(ps, root').0, [modified] + RunPasses(ps, root').1)
  {
    hide Apply, EditOf;
    assert ([p] + ps)[0] == p && ([p] + ps)[1..] == ps;
  }

  lemma {:induction false} GoalSurvives(p: Pass, ps: seq<Pass>, root: Elem)
    requires Goal(EditOf(p), root)
    ensures Goal(EditOf(p), RunPasses(ps, root).0)
    decreases |ps|
  {
    hide Goal, Apply, Compatible, Sound;
    if ps != [] {
      PassesAreSound(p, ps[0]);
      CompatibleKeepsGoal(EditOf(p), EditOf(ps[0]), root);
      GoalSurvives(p, ps[1..], Apply(EditOf(ps[0]), root).0);
    }
  }

  /** However the passes are ordered or repeated, all their goals hold together at the end. */
  lemma {:induction false} PassesReachJointGoal(ps: seq<Pass>, root: Elem, p: Pass)
    requires p in ps
    ensures Goal(EditOf(p), RunPasses(ps, root).0)
    decreases |ps|
  {
    hide Goal, Apply, Compatible, Sound;
    var root' := Apply(EditOf(ps[0]), root).0;
    if ps[0] == p {
      PassesAreSound(p, p);
      ReachesGoal(EditOf(p), root);
      GoalSurvives(p, ps[1..], root');
    } else {
      PassesReachJointGoal(ps[1..], root', p);
    }
  }

  lemma {:induction false} SatisfiedPassesDoNothing(ps: seq<Pass>, root: Elem)
    requires forall p :: p in ps ==> Goal(EditOf(p), root)
    ensures RunPasses(ps, root).0 == root && true !in RunPasses(ps, root).1
    decreases |ps|
  {
    hide Goal, Apply;
    if ps != [] {
      assert ps[0] in ps;
      ReportsUnmetGoal(EditOf(ps[0]), root);
      assert forall p :: p in ps[1..] ==> p in ps;
      SatisfiedPassesDoNothing(ps[1..], root);
    }
  }

  /** A further run, in any order, changes nothing and every pass returns False. */
  lemma PassesReachFixedPoint(ps: seq<Pass>, qs: seq<Pass>, root: Elem)
    requires forall q :: q in qs ==> q in ps
    ensures RunPasses(qs, RunPasses(ps, root).0).0 == RunPasses(ps, root).0
    ensures true !in RunPasses(qs, RunPasses(ps, root).0).1
  {
    hide Goal, Apply;
    forall q | q in qs ensures Goal(EditOf(q), RunPasses(ps, root).0) {
      PassesReachJointGoal(ps, root, q);
    }
    SatisfiedPassesDoNothing(qs, RunPasses(ps, root).0);
  }

  // -------------------------------------------------------------- extension

  /**
   * All that a pass may change, by path from the domain element: os/type, features/ioapic,
   * devices/iommu and devices/iommu/driver, in the attributes named here, and one more
   * interface in devices.
   */
  const DOMAIN_SCOPE :=
    Scope({}, map["os" := Scope({}, map["type" := Scope({"machine"}, map[], false)], false),
                  "features" := Scope({}, map["ioapic" := Scope({"driver"}, map[], false)], false),
                  "devices" := Scope({}, map["iommu" := IOMMU_SCOPE], true)],
          false)

  const IOMMU_SCOPE := Scope({"model"}, map["driver" := Scope({"intremap", "iotlb"}, map[], false)], false)

  lemma PassesAreCovered(p: Pass)
    ensures Covers(DOMAIN_SCOPE, EditOf(p))
  {
  }

  /** Any run of passes only extends the domain, and only there. */
  lemma {:induction false} PassesOnlyExtend(ps: seq<Pass>, root: Elem)
    ensures Extends(root, RunPasses(ps, root).0, DOMAIN_SCOPE)
    decreases |ps|
  {
    hide Extends, Apply, Covers;
    if ps == [] {
      ExtendsItself(root, DOMAIN_SCOPE);
    } else {
      var root' := Apply(EditOf(ps[0]), root).0;
      PassesAreCovered(ps[0]);
      EditsOnlyExtend(EditOf(ps[0]), root, DOMAIN_SCOPE);
      PassesOnlyExtend(ps[1..], root');
      ExtendsTransitive(root, root', RunPasses(ps, root).0, DOMAIN_SCOPE);
    }
  }

  /**
   * The same without scopes: children of the domain other than the os, features and devices
   * elements that are found stay as they are, and so do all old children of devices but the
   * first iommu, disks and interfaces for example.
   */
  lemma OthersStay(ps: seq<Pass>, root: Elem, i: nat)
    requires i < |root.children|
    ensures var after, c := RunPasses(ps, root).0, root.children[i];
            && i < |after.children|
            && (c.tag !in {"os", "features", "devices"} || Pick(root.children, c.tag) != i ==> after.children[i] == c)
            && (c.tag == "devices" ==>
                  && |c.children| <= |after.children[i].children|
                  && after.children[i].attrs == c.attrs
                  && forall j :: 0 <= j < |c.children| && (c.children[j].tag != "iommu" || Find(c.children, "iommu") != j) ==>
                       after.children[i].children[j] == c.children[j])
  {
    hide RunPasses, Find, OsPosition;
    PassesOnlyExtend(ps, root);
    var after, c := RunPasses(ps, root).0, root.children[i];
    assert OldChild(root, after, DOMAIN_SCOPE, i);
    if c.tag == "devices" {
      ExtendsItself(c, DOMAIN_SCOPE.below["devices"]);
      var c', inDevices := after.children[i], DOMAIN_SCOPE.below["devices"];
      assert Extends(c, c', inDevices);
      AttrsStay(c.attrs, c'.attrs, inDevices.attrs);
      forall j | 0 <= j < |c.children| && (c.children[j].tag != "iommu" || Find(c.children, "iommu") != j)
        ensures c'.children[j] == c.children[j]
      {
        assert OldChild(c, c', inDevices, j);
      }
    }
  }

  /** Whether any flag is raised: changes_made. */
  predicate AnyTrue(flags: seq<bool>)
  {
    flags != [] && (flags[0] || AnyTrue(flags[1..]))
  }

  lemma AnyTrueCons(flag: bool, flags: seq<bool>)
    ensures AnyTrue([flag] + flags) <==> flag || AnyTrue(flags)
  {
    assert ([flag] + flags)[1..] == flags;
  }

  /** The flags of a run tell exactly whether the domain changed. */
  lemma {:induction false} FlagsAreExact(ps: seq<Pass>, root: Elem)
    ensures AnyTrue(RunPasses(ps, root).1) <==> RunPasses(ps, root).0 != root
    ensures AnyTrue(RunPasses(ps, root).1) <==> exists p :: p in ps && !Goal(EditOf(p), root)
    decreases |ps|
  {
    hide Goal, Apply, Sound, Compatible;
    if ps != [] {
      var p, root' := ps[0], Apply(EditOf(ps[0]), root).0;
      PassesAreSound(p, p);
      FlagIsExact(EditOf(p), root);
      ReportsUnmetGoal(EditOf(p), root);
      FlagsAreExact(ps[1..], root');
      if Goal(EditOf(p), root) {
        assert root' == root;
        assert forall q :: q in ps <==> q == p || q in ps[1..];
      } else {
        PassesReachJointGoal(ps, root, p);
      }
    }
  }

  // ---------------------------------------------------------- igb interfaces

  /** Network igb interfaces of the first devices element; none without one. */
  function IgbCount(root: Elem): nat
  {
    var devices := Tagged(root.children, "devices");
    if devices == [] then 0 else IgbIn(devices[0])
  }

  function Max(a: nat, b: nat): nat
  {
    if a < b then b else a
  }

  lemma AddIgbCounts(devices: Elem)
    ensures IgbIn(Apply(AddIgb, devices).0) == Max(1, IgbIn(devices))
  {
    hide Tagged, CountIgb;
    TaggedAppend(devices.children, IGB_INTERFACE, "interface");
    CountIgbAppend(Tagged(devices.children, "interface"), [IGB_INTERFACE]);
    IgbInterfaceCounts();
  }

  lemma PassIgbCount(p: Pass, root: Elem)
    ensures IgbCount(Apply(EditOf(p), root).0) == if p == IgbPass then Max(1, IgbCount(root)) else IgbCount(root)
  {
    hide Tagged, Apply, IgbIn;
    var devices := Tagged(root.children, "devices");
    var first := if devices == [] then NewElem("devices") else devices[0];
    assert IgbIn(NewElem("devices")) == 0 by { NoIgbInNew(); }
    match p
    case MachinePass => UntouchedStays(FixMachine, root, "devices");
    case IoapicPass => UntouchedStays(EditOf(p), root, "devices");
    case IommuPass =>
      var inner := EditOf(p).edit;
      InChildTagged("devices", inner, root, "devices");
      UntouchedIgb(inner, first);
    case IgbPass =>
      InChildTagged("devices", AddIgb, root, "devices");
      AddIgbCounts(first);
  }

  lemma NoIgbInNew()
    ensures IgbIn(NewElem("devices")) == 0
  {
  }

  lemma UntouchedIgb(ed: Edit, devices: Elem)
    requires Untouched(ed, "interface")
    ensures IgbIn(Apply(ed, devices).0) == IgbIn(devices)
  {
    hide Tagged, CountIgb, Apply;
    UntouchedStays(ed, devices, "interface");
  }

  /** Any run that includes the igb pass leaves max(1, n) igb interfaces where there were n. */
  lemma {:induction false} PassesIgbCount(ps: seq<Pass>, root: Elem)
    ensures IgbCount(RunPasses(ps, root).0) == if IgbPass in ps then Max(1, IgbCount(root)) else IgbCount(root)
    decreases |ps|
  {
    hide IgbCount, Apply;
    if ps != [] {
      PassIgbCount(ps[0], root);
      PassesIgbCount(ps[1..], Apply(EditOf(ps[0]), root).0);
      assert IgbPass in ps <==> ps[0] == IgbPass || IgbPass in ps[1..];
    }
  }

  /** All interfaces of the first devices element. */
  function InterfacesOf(root: Elem): seq<Elem>
  {
    var devices := Tagged(root.children, "devices");
    if devices == [] then [] else Tagged(devices[0].children, "interface")
  }

  /** An igb interface on the SR-IOV network and nothing else. */
  predicate IsSriovInterface(e: Elem)
  {
    && e.tag == "interface" && e.attrs == [("type", "network")] && e.text == "" && e.tail == ""
    && e.children == [Elem("source", [("network", "sriov-net")], "", "", []), Elem("model", [("type", "igb")], "", "", [])]
  }

  /** The interfaces are as before, except that a domain without an igb interface has got one. */
  predicate InterfaceEnsured(root: Elem, root': Elem)
  {
    var before, after := InterfacesOf(root), InterfacesOf(root');
    if IgbCount(root) > 0 then after == before
    else |after| == |before| + 1 && after[..|before|] == before && IsSriovInterface(after[|before|])
  }

  lemma PassInterfaces(p: Pass, root: Elem)
    ensures var before, after := InterfacesOf(root), InterfacesOf(Apply(EditOf(p), root).0);
            if p == IgbPass && IgbCount(root) == 0 then after == before + [IGB_INTERFACE] else after == before
  {
    hide Tagged, Apply, CountIgb;
    var devices := Tagged(root.children, "devices");
    var first := if devices == [] then NewElem("devices") else devices[0];
    assert Tagged(NewElem("devices").children, "interface") == [] && IgbIn(NewElem("devices")) == 0 by {
      NoIgbInNew();
      NoneInNew();
    }
    match p
    case MachinePass => UntouchedStays(FixMachine, root, "devices");
    case IoapicPass => UntouchedStays(EditOf(p), root, "devices");
    case IommuPass =>
      var inner := EditOf(p).edit;
      InChildTagged("devices", inner, root, "devices");
      UntouchedStays(inner, first, "interface");
    case IgbPass =>
      InChildTagged("devices", AddIgb, root, "devices");
      AddIgbInterfaces(first);
  }

  lemma NoneInNew()
    ensures Tagged(NewElem("devices").children, "interface") == []
  {
  }

  lemma AddIgbInterfaces(devices: Elem)
    ensures Tagged(Apply(AddIgb, devices).0.children, "interface")
            == Tagged(devices.children, "interface") + (if IgbIn(devices) > 0 then [] else [IGB_INTERFACE])
  {
    hide Tagged, IgbIn;
    TaggedAppend(devices.children, IGB_INTERFACE, "interface");
  }

  /** Runs keep all interfaces in order, and add the SR-IOV one exactly where none was of igb model. */
  lemma {:induction false} PassesInterfaces(ps: seq<Pass>, root: Elem)
    ensures if IgbPass in ps then InterfaceEnsured(root, RunPasses(ps, root).0)
            else InterfacesOf(RunPasses(ps, root).0) == InterfacesOf(root)
    decreases |ps|
  {
    hide InterfacesOf, IgbCount, Apply;
    if ps != [] {
      var root' := Apply(EditOf(ps[0]), root).0;
      PassInterfaces(ps[0], root);
      PassIgbCount(ps[0], root);
      PassesInterfaces(ps[1..], root');
      assert IgbPass in ps <==> ps[0] == IgbPass || IgbPass in ps[1..];
      assert IsSriovInterface(IGB_INTERFACE);
    }
  }

  /** What counts as an igb interface. */
  lemma IsIgbIff(e: Elem)
    ensures IsIgb(e) <==> HasAttr(Some(e), "type", "network") && HasAttr(At(e, ["model"]), "type", "igb")
  {
    hide Tagged, Get, Find;
    FindIsFirstTagged(e.children, "model");
    AtStep(e, "model", []);
    assert ["model"] + [] == ["model"];
  }

  lemma {:induction false} CountIgbPositive(es: seq<Elem>)
    ensures CountIgb(es) > 0 <==> exists i :: 0 <= i < |es| && IsIgb(es[i])
  {
    hide IsIgb;
    if es != [] {
      CountIgbPositive(es[1..]);
      forall i | 0 <= i < |es| && IsIgb(es[i]) ensures i == 0 || IsIgb(es[1..][i - 1]) {
      }
      forall i | 0 <= i < |es[1..]| && IsIgb(es[1..][i]) ensures IsIgb(es[i + 1]) {
      }
    }
  }

  // ----------------------------------------------------------- the machine

  /** The machine type of the domain, where it has an os element with a type. */
  function MachineOf(root: Elem): Option<string>
  {
    var t := OsType(Tagged(root.children, "os"));
    if t.Some? then Some(Machine(t.value)) else None
  }

  /** That is the machine attribute of the first type in the first os element with one. */
  lemma {:induction false} OsTypeIff(oses: seq<Elem>, t: Elem)
    ensures OsType(oses) == Some(t)
            <==> exists i :: 0 <= i < |oses| && Tagged(oses[i].children, "type") != [] && Tagged(oses[i].children, "type")[0] == t
                             && forall j :: 0 <= j < i ==> Tagged(oses[j].children, "type") == []
  {
    hide Tagged, Find;
    if oses != [] {
      FindIsFirstTagged(oses[0].children, "type");
      OsTypeIff(oses[1..], t);
      if !HasType(oses[0]) {
        forall i | 0 <= i < |oses[1..]| && Tagged(oses[1..][i].children, "type") != [] && Tagged(oses[1..][i].children, "type")[0] == t
                   && forall j :: 0 <= j < i ==> Tagged(oses[1..][j].children, "type") == []
          ensures Tagged(oses[i + 1].children, "type") != [] && Tagged(oses[i + 1].children, "type")[0] == t
          ensures forall j :: 0 <= j < i + 1 ==> Tagged(oses[j].children, "type") == []
        {
          assert forall j :: 1 <= j < i + 1 ==> oses[j] == oses[1..][j - 1];
        }
        forall i | 0 <= i < |oses| && Tagged(oses[i].children, "type") != [] && Tagged(oses[i].children, "type")[0] == t
                   && forall j :: 0 <= j < i ==> Tagged(oses[j].children, "type") == []
          ensures i > 0 && oses[1..][i - 1] == oses[i]
          ensures forall j :: 0 <= j < i - 1 ==> Tagged(oses[1..][j].children, "type") == []
        {
          assert forall j :: 0 <= j < i - 1 ==> oses[1..][j] == oses[j + 1];
        }
      }
    }
  }

  lemma PassMachine(p: Pass, root: Elem)
    ensures var before, after := MachineOf(root), MachineOf(Apply(EditOf(p), root).0);
            if p == MachinePass && before.Some? && !MachineType.Contains(before.value, "q35")
            then after == Some(MachineType.NewMachine(before.value))
            else after == before
  {
    hide Tagged, OsType, MachineType.Contains, MachineType.NewMachine;
    if p == MachinePass {
      FixMachineSets(root);
    } else {
      UntouchedStays(EditOf(p), root, "os");
    }
  }

  /** A name that mentions q35 stays; any other becomes the q35 name with its version. */
  lemma {:induction false} PassesMachine(ps: seq<Pass>, root: Elem)
    ensures var before, after := MachineOf(root), MachineOf(RunPasses(ps, root).0);
            if MachinePass in ps && before.Some? && !MachineType.Contains(before.value, "q35")
            then after == Some(MachineType.NewMachine(before.value))
            else after == before
    decreases |ps|
  {
    hide MachineOf, Apply, MachineType.Contains, MachineType.NewMachine;
    if ps != [] {
      PassMachine(ps[0], root);
      PassesMachine(ps[1..], Apply(EditOf(ps[0]), root).0);
      assert MachinePass in ps <==> ps[0] == MachinePass || MachinePass in ps[1..];
      if MachineOf(root).Some? {
        MachineType.NewMachineIsQ35(MachineOf(root).value);
      }
    }
  }

  // ---------------------------------------------------------- the name test

  /** The domain is a minikube worker: its first name starts with minikube-m. */
  predicate Selected(root: Elem)
  {
    var names := Tagged(root.children, "name");
    names != [] && "minikube-m" <= names[0].text
  }

  /** No run of passes changes the answer of the name test. */
  lemma {:induction false} PassesKeepName(ps: seq<Pass>, root: Elem)
    ensures Selected(RunPasses(ps, root).0) <==> Selected(root)
    decreases |ps|
  {
    hide Apply, Tagged, Untouched;
    if ps != [] {
      PassesAreSound(ps[0], ps[0]);
      UntouchedStays(EditOf(ps[0]), root, "name");
      PassesKeepName(ps[1..], Apply(EditOf(ps[0]), root).0);
    }
  }

  // -------------------------------------------------------------- the filter

  /** ElementTree's parser (None is a ParseError) and writer. */
  datatype Codec = Codec(parse: Str -> Option<Elem>, write: Elem -> Str)

  /** Exit code and everything written to stdout. */
  datatype Outcome = Outcome(code: int, output: Str)

  const ALL_PASSES := [MachinePass, IoapicPass, IommuPass, IgbPass]

  /** The passes one by one, in the order of process_xml_stream. */
  lemma FourPasses(t0: Elem, t1: Elem, t2: Elem, t3: Elem, t4: Elem, m0: bool, m1: bool, m2: bool, m3: bool)
    requires (t1, m0) == Apply(EditOf(MachinePass), t0)
    requires (t2, m1) == Apply(EditOf(IoapicPass), t1)
    requires (t3, m2) == Apply(EditOf(IommuPass), t2)
    requires (t4, m3) == Apply(EditOf(IgbPass), t3)
    ensures RunPasses(ALL_PASSES, t0).0 == t4
    ensures AnyTrue(RunPasses(ALL_PASSES, t0).1) <==> m0 || m1 || m2 || m3
  {
    hide Apply, EditOf, AnyTrue;
    var one := [IgbPass] + [];
    var two := [IommuPass] + one;
    var three := [IoapicPass] + two;
    assert ALL_PASSES == [MachinePass] + three;
    assert !AnyTrue([]) by { NoFlags(); }
    RunPassesCons(IgbPass, [], t3);
    RunPassesCons(IommuPass, one, t2);
    RunPassesCons(IoapicPass, two, t1);
    RunPassesCons(MachinePass, three, t0);
    AnyTrueCons(m3, []);
    AnyTrueCons(m2, RunPasses(one, t3).1);
    AnyTrueCons(m1, RunPasses(two, t2).1);
    AnyTrueCons(m0, RunPasses(three, t1).1);
  }

  lemma NoFlags()
    ensures !AnyTrue([])
  {
  }

  /** process_xml_stream. */
  function ProcessXmlStream(codec: Codec, data: Str): Outcome
  {
    if data == [] then Outcome(0, [])
    else
      match codec.parse(data)
      case None => Outcome(1, [])
      case Some(root) =>
        if Selected(root) then
          var (root', flags) := RunPasses(ALL_PASSES, root);
          if AnyTrue(flags) then Outcome(0, codec.write(root')) else Outcome(0, data)
        else Outcome(0, data)
  }

  /** All four goals hold. */
  predicate Conforms(root: Elem)
  {
    && Goal(EditOf(MachinePass), root)
    && Goal(EditOf(IoapicPass), root)
    && Goal(EditOf(IommuPass), root)
    && Goal(EditOf(IgbPass), root)
  }

  /** The element reached by going to the first child with each tag in turn. */
  function At(e: Elem, path: seq<string>): Option<Elem>
    decreases |path|
  {
    if path == [] then Some(e)
    else
      var cs := Tagged(e.children, path[0]);
      if cs == [] then None else At(cs[0], path[1..])
  }

  predicate HasAttr(e: Option<Elem>, key: string, value: string)
  {
    e.Some? && Get(e.value.attrs, key) == Some(value)
  }

  /**
   * Conforming, said without passes or edits: the q35 machine, the qemu ioapic, the intel
   * iommu with interrupt remapping and IOTLB, and a network igb interface.
   */
  lemma ConformsMeans(root: Elem)
    ensures Conforms(root)
            <==> && (OsType(Tagged(root.children, "os")).Some? ==>
                       MachineType.Contains(Machine(OsType(Tagged(root.children, "os")).value), "q35"))
                 && HasAttr(At(root, ["features", "ioapic"]), "driver", "qemu")
                 && HasAttr(At(root, ["devices", "iommu"]), "model", "intel")
                 && HasAttr(At(root, ["devices", "iommu", "driver"]), "intremap", "on")
                 && HasAttr(At(root, ["devices", "iommu", "driver"]), "iotlb", "on")
                 && exists i :: 0 <= i < |InterfacesOf(root)|
                                && HasAttr(Some(InterfacesOf(root)[i]), "type", "network")
                                && HasAttr(At(InterfacesOf(root)[i], ["model"]), "type", "igb")
  {
    hide Tagged, Get, CountIgb, IsIgb, OsType;
    var es := InterfacesOf(root);
    CountIgbPositive(es);
    forall i | 0 <= i < |es|
      ensures IsIgb(es[i]) <==> HasAttr(Some(es[i]), "type", "network") && HasAttr(At(es[i], ["model"]), "type", "igb")
    {
      IsIgbIff(es[i]);
    }
    assert IgbCount(root) == CountIgb(es) by { NoInterfaces(); }
    hide InterfacesOf, HasAttr;
    PathsMeet(root);
  }

  lemma NoInterfaces()
    ensures CountIgb([]) == 0
  {
  }

  /** The goals of the other passes, by paths. */
  lemma PathsMeet(root: Elem)
    ensures Goal(EditOf(IoapicPass), root) <==> HasAttr(At(root, ["features", "ioapic"]), "driver", "qemu")
    ensures Goal(EditOf(IommuPass), root)
            <==> && HasAttr(At(root, ["devices", "iommu"]), "model", "intel")
                 && HasAttr(At(root, ["devices", "iommu", "driver"]), "intremap", "on")
                 && HasAttr(At(root, ["devices", "iommu", "driver"]), "iotlb", "on")
    ensures Goal(EditOf(IgbPass), root) <==> IgbCount(root) > 0
  {
    hide Tagged, Get, IgbIn, OsType;
    AtStep(root, "features", ["ioapic"]);
    AtStep(root, "devices", ["iommu"]);
    AtStep(root, "devices", ["iommu", "driver"]);
    var features, devices := Tagged(root.children, "features"), Tagged(root.children, "devices");
    if features != [] {
      AtStep(features[0], "ioapic", []);
    }
    if devices != [] {
      AtStep(devices[0], "iommu", []);
      AtStep(devices[0], "iommu", ["driver"]);
      var iommus := Tagged(devices[0].children, "iommu");
      if iommus != [] {
        AtStep(iommus[0], "driver", []);
      }
    }
  }

  lemma AtStep(e: Elem, tag: string, path: seq<string>)
    ensures At(e, [tag] + path)
            == var cs := Tagged(e.children, tag); if cs == [] then None else At(cs[0], path)
  {
    assert ([tag] + path)[0] == tag && ([tag] + path)[1..] == path;
  }

  lemma ConformsIff(root: Elem)
    ensures Conforms(root) <==> !AnyTrue(RunPasses(ALL_PASSES, root).1)
    ensures Conforms(RunPasses(ALL_PASSES, root).0)
  {
    hide Goal, AnyTrue, RunPasses;
    FlagsAreExact(ALL_PASSES, root);
    assert MachinePass == ALL_PASSES[0] && IoapicPass == ALL_PASSES[1];
    assert IommuPass == ALL_PASSES[2] && IgbPass == ALL_PASSES[3];
    PassesReachJointGoal(ALL_PASSES, root, MachinePass);
    PassesReachJointGoal(ALL_PASSES, root, IoapicPass);
    PassesReachJointGoal(ALL_PASSES, root, IommuPass);
    PassesReachJointGoal(ALL_PASSES, root, IgbPass);
  }

  /** The writer's output for this input, if it is used, parses back to the tree it printed. */
  ghost predicate PrintsBack(codec: Codec, data: Str)
  {
    codec.parse(data).Some? ==>
      var t := RunPasses(ALL_PASSES, codec.parse(data).value).0;
      codec.parse(codec.write(t)) == Some(t)
  }

  /**
   * The input comes out byte for byte exactly when it is empty, or parses to a domain that is
   * not selected or conforms already. A changed domain cannot print as the old text, because
   * that parses differently.
   */
  lemma VerbatimIff(codec: Codec, data: Str)
    requires PrintsBack(codec, data)
    ensures ProcessXmlStream(codec, data) == Outcome(0, data)
            <==> || data == []
                 || (codec.parse(data).Some? && (!Selected(codec.parse(data).value) || Conforms(codec.parse(data).value)))
  {
    hide RunPasses, AnyTrue, Conforms, Selected;
    if codec.parse(data).Some? {
      ConformsIff(codec.parse(data).value);
      FlagsAreExact(ALL_PASSES, codec.parse(data).value);
    }
  }

  /** A selected domain comes out conforming, still selected, and as an extension of itself. */
  lemma OutputConforms(codec: Codec, data: Str)
    requires data != [] && codec.parse(data).Some? && Selected(codec.parse(data).value)
    requires PrintsBack(codec, data)
    ensures var out := ProcessXmlStream(codec, data);
            && out.code == 0
            && codec.parse(out.output).Some?
            && var root, root' := codec.parse(data).value, codec.parse(out.output).value;
            && Conforms(root') && Selected(root') && Extends(root, root', DOMAIN_SCOPE)
            && IgbCount(root') == Max(1, IgbCount(root)) && InterfaceEnsured(root, root')
  {
    hide RunPasses, AnyTrue, Conforms, Selected, Extends, IgbCount, InterfaceEnsured;
    assert IgbPass == ALL_PASSES[3];
    PassesInterfaces(ALL_PASSES, codec.parse(data).value);
    InterfaceAlready(codec.parse(data).value);
    var root := codec.parse(data).value;
    ConformsIff(root);
    FlagsAreExact(ALL_PASSES, root);
    PassesKeepName(ALL_PASSES, root);
    PassesOnlyExtend(ALL_PASSES, root);
    PassesIgbCount(ALL_PASSES, root);
    assert ALL_PASSES[3] == IgbPass;
  }

  lemma InterfaceAlready(root: Elem)
    ensures Conforms(root) ==> InterfaceEnsured(root, root)
  {
    hide IgbIn;
  }

  /** The exit code, and that a document which does not parse produces no output. */
  lemma ExitCode(codec: Codec, data: Str)
    ensures ProcessXmlStream(codec, data).code == if data != [] && codec.parse(data).None? then 1 else 0
    ensures codec.parse(data).None? ==> ProcessXmlStream(codec, data).output == []
  {
    hide RunPasses, AnyTrue, Selected;
  }

  /** The name test: the text of the first name begins with minikube-m. */
  lemma SelectedIff(root: Elem)
    ensures Selected(root)
            <==> At(root, ["name"]).Some? && |At(root, ["name"]).value.text| >= 10
                 && At(root, ["name"]).value.text[..10] == "minikube-m"
  {
    hide Tagged;
    AtStep(root, "name", []);
    assert ["name"] + [] == ["name"];
  }

  /** Filtering twice is filtering once, byte for byte and on every input. */
  lemma FilterIsIdempotent(codec: Codec, data: Str)
    requires PrintsBack(codec, data)
    requires ProcessXmlStream(codec, data).code == 0
    ensures ProcessXmlStream(codec, ProcessXmlStream(codec, data).output) == ProcessXmlStream(codec, data)
  {
    hide RunPasses, AnyTrue, Conforms, Selected;
    if data != [] {
      var root := codec.parse(data).value;
      var t := RunPasses(ALL_PASSES, root).0;
      ConformsIff(root);
      ConformsIff(t);
    }
  }
}
