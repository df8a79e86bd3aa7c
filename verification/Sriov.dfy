/** setup/sriovvf: creating virtual functions and placing them on NUMA nodes. */
module Sriov {
  import opened Bytes
  import opened Faults
  import opened Sorting
  import opened PciAddress

  // ------------------------------------------------------------------ sysfs

  datatype File = NumVfs(device: Str) | NumaNode(device: Str)

  datatype Write = Write(file: File, value: int)

  /** sysfs as the tool meets it: any write may fail, and a failed write changes nothing. */
  class Sysfs {
    const fails: Oracle
    var attempts: nat
    var log: seq<Write>

    constructor (fails: Oracle)
      ensures this.fails == fails && attempts == 0 && log == []
    {
      this.fails, attempts, log := fails, 0, [];
    }

    method WriteInt(file: File, value: int) returns (ok: bool)
      modifies this
      ensures attempts == old(attempts) + 1
      ensures ok <==> !fails(old(attempts))
      ensures log == old(log) + if ok then [Write(file, value)] else []
    {
      ok := !fails(attempts);
      attempts := attempts + 1;
      if ok {
        log := log + [Write(file, value)];
      }
    }
  }

  // ---------------------------------------------------------- configuration

  datatype Config = Config(numVFs: int, pfNUMANode: int, tryMode: bool)

  datatype PF = PF(pciAddr: Str, path: Str, totalVFs: int, currentVFs: int)

  datatype Failure =
    | BadNumVfs | BadSysfs | NoPf | TooManyVfs
    | VfReset | VfConfigure | PfNuma | ListVfs | ListNodes | VfNuma(index: nat)

  /** What the reading steps find; None and false are their errors. */
  datatype Host = Host(sysfsIsDir: bool, pf: Option<PF>, vfs: Option<seq<Str>>, nodes: Option<seq<int>>)

  // ------------------------------------------------------------------ plans

  /** The writes that set the number of VFs: a non-zero number goes through zero. */
  function CountWrites(pf: PF, requested: int): seq<Write>
  {
    if pf.currentVFs == requested then []
    else if pf.currentVFs > 0 then [Write(NumVfs(pf.path), 0), Write(NumVfs(pf.path), requested)]
    else [Write(NumVfs(pf.path), requested)]
  }

  function PinWrites(vfs: seq<Str>, node: int): seq<Write>
  {
    seq(|vfs|, i requires 0 <= i < |vfs| => Write(NumaNode(vfs[i]), node))
  }

  function BalanceWrites(vfs: seq<Str>, nodes: seq<int>): seq<Write>
    requires nodes != []
  {
    seq(|vfs|, i requires 0 <= i < |vfs| => Write(NumaNode(vfs[i]), nodes[i % |nodes|]))
  }

  /** The PF itself goes to the node that was asked for. */
  function PfWrites(cfg: Config, pf: PF): seq<Write>
  {
    if cfg.pfNUMANode >= 0 then [Write(NumaNode(pf.path), cfg.pfNUMANode)] else []
  }

  /** Where the VFs go, if anywhere. */
  function PlacementWrites(cfg: Config, host: Host): seq<Write>
  {
    if host.vfs.None? || host.vfs.value == [] || cfg.numVFs == 0 then []
    else if cfg.pfNUMANode >= 0 then PinWrites(host.vfs.value, cfg.pfNUMANode)
    else if host.nodes.None? || host.nodes.value == [] then []
    else BalanceWrites(host.vfs.value, host.nodes.value)
  }

  predicate Accepted(cfg: Config, host: Host)
  {
    host.sysfsIsDir && host.pf.Some? && 0 <= cfg.numVFs <= host.pf.value.totalVFs
  }

  /** Every write of a run in which nothing fails. */
  function Plan(cfg: Config, host: Host): seq<Write>
  {
    if !Accepted(cfg, host) then []
    else
      var pf := host.pf.value;
      CountWrites(pf, cfg.numVFs) + (PfWrites(cfg, pf) + PlacementWrites(cfg, host))
  }

  // ------------------------------------------------------------------ steps

  method SetNumVFs(fs: Sysfs, pf: PF, requested: int) returns (err: Option<Failure>)
    modifies fs
    ensures fs.log == old(fs.log) + Stage(fs.fails, old(fs.attempts), CountWrites(pf, requested))
    ensures fs.attempts == After(fs.fails, old(fs.attempts), |CountWrites(pf, requested)|)
    ensures err == CountError(pf, requested, Done(fs.fails, old(fs.attempts), |CountWrites(pf, requested)|))
  {
    var target := NumVfs(pf.path);
    if pf.currentVFs == requested {
      return None;
    }
    if pf.currentVFs > 0 {
      var ok := fs.WriteInt(target, 0);
      if !ok {
        return Some(VfReset);
      }
    }
    var ok := fs.WriteInt(target, requested);
    if !ok {
      return Some(VfConfigure);
    }
    return None;
  }

  method SetPFNUMANode(fs: Sysfs, pf: PF, node: int) returns (err: Option<Failure>)
    modifies fs
    ensures fs.log == old(fs.log) + Stage(fs.fails, old(fs.attempts), [Write(NumaNode(pf.path), node)])
    ensures fs.attempts == After(fs.fails, old(fs.attempts), 1)
    ensures err == if Done(fs.fails, old(fs.attempts), 1) == 1 then None else Some(PfNuma)
  {
    var ok := fs.WriteInt(NumaNode(pf.path), node);
    return if ok then None else Some(PfNuma);
  }

  method PinVFNUMA(fs: Sysfs, vfs: seq<Str>, node: int) returns (err: Option<Failure>)
    modifies fs
    ensures fs.log == old(fs.log) + Stage(fs.fails, old(fs.attempts), PinWrites(vfs, node))
    ensures fs.attempts == After(fs.fails, old(fs.attempts), |vfs|)
    ensures err == PlaceError(Done(fs.fails, old(fs.attempts), |vfs|), |vfs|)
  {
    hide Done;
    for i := 0 to |vfs|
      invariant fs.log == old(fs.log) + PinWrites(vfs, node)[..i]
      invariant fs.attempts == old(fs.attempts) + i
      invariant forall j :: old(fs.attempts) <= j < old(fs.attempts) + i ==> !fs.fails(j)
    {
      NextWrite(PinWrites(vfs, node), i);
      var ok := fs.WriteInt(NumaNode(vfs[i]), node);
      if !ok {
        DoneIs(fs.fails, old(fs.attempts), |vfs|, i);
        return Some(VfNuma(i));
      }
    }
    DoneIs(fs.fails, old(fs.attempts), |vfs|, |vfs|);
    return None;
  }

  lemma NextWrite(ws: seq<Write>, i: nat)
    requires i < |ws|
    ensures ws[..i + 1] == ws[..i] + [ws[i]]
  {
  }

  /**
   * Round robin. At any moment, also when a write fails, exactly the first VFs have been
   * placed, each on the node whose turn it was.
   */
  method BalanceVFNUMA(fs: Sysfs, vfs: seq<Str>, nodes: seq<int>) returns (err: Option<Failure>)
    requires nodes != []
    modifies fs
    ensures fs.log == old(fs.log) + Stage(fs.fails, old(fs.attempts), BalanceWrites(vfs, nodes))
    ensures fs.attempts == After(fs.fails, old(fs.attempts), |vfs|)
    ensures err == PlaceError(Done(fs.fails, old(fs.attempts), |vfs|), |vfs|)
    ensures Distinct(nodes) ==> Balanced(fs.log[|old(fs.log)|..], nodes)
  {
    AnyBeginningIsBalanced(vfs, nodes, Done(fs.fails, fs.attempts, |vfs|));
    hide Done, Balanced, Distinct;
    for i := 0 to |vfs|
      invariant fs.log == old(fs.log) + BalanceWrites(vfs, nodes)[..i]
      invariant fs.attempts == old(fs.attempts) + i
      invariant forall j :: old(fs.attempts) <= j < old(fs.attempts) + i ==> !fs.fails(j)
    {
      var node := nodes[i % |nodes|];
      NextWrite(BalanceWrites(vfs, nodes), i);
      var ok := fs.WriteInt(NumaNode(vfs[i]), node);
      if !ok {
        DoneIs(fs.fails, old(fs.attempts), |vfs|, i);
        return Some(VfNuma(i));
      }
    }
    DoneIs(fs.fails, old(fs.attempts), |vfs|, |vfs|);
    return None;
  }

  // ----------------------------------------------------------------- errors

  /** The error when setting the count stops after `k` writes. */
  function CountError(pf: PF, requested: int, k: nat): Option<Failure>
  {
    if k >= |CountWrites(pf, requested)| then None
    else if k == 0 && pf.currentVFs > 0 then Some(VfReset)
    else Some(VfConfigure)
  }

  /** The error when placing `n` VFs stops after `k`. */
  function PlaceError(k: nat, n: nat): Option<Failure>
  {
    if k < n then Some(VfNuma(k)) else None
  }

  /** The error of the listings that placing the VFs depends on. */
  function ListError(cfg: Config, host: Host): Option<Failure>
  {
    if host.vfs.None? then Some(ListVfs)
    else if host.vfs.value == [] || cfg.numVFs == 0 || cfg.pfNUMANode >= 0 then None
    else if host.nodes.None? then Some(ListNodes)
    else None
  }

  /** Why a request is turned down before anything is written. */
  function Rejection(cfg: Config, host: Host): Option<Failure>
  {
    if cfg.numVFs < 0 then Some(BadNumVfs)
    else if !host.sysfsIsDir then Some(BadSysfs)
    else if host.pf.None? then Some(NoPf)
    else if cfg.numVFs > host.pf.value.totalVFs then Some(TooManyVfs)
    else None
  }

  /** The error when the writes to numa_node files stop after `k`, told by the position. */
  function NumaError(cfg: Config, host: Host, k: nat): Option<Failure>
    requires host.pf.Some?
  {
    var pinned := |PfWrites(cfg, host.pf.value)|;
    if k < pinned then Some(PfNuma)
    else if k < pinned + |PlacementWrites(cfg, host)| then Some(VfNuma(k - pinned))
    else ListError(cfg, host)
  }

  /** The error of a strict run that stops after `k` writes of the plan. */
  function StrictError(cfg: Config, host: Host, k: nat): Option<Failure>
    requires host.pf.Some?
  {
    var counts := |CountWrites(host.pf.value, cfg.numVFs)|;
    if k < counts then CountError(host.pf.value, cfg.numVFs, k) else NumaError(cfg, host, k - counts)
  }

  // -------------------------------------------------------------------- run

  /** What a run has written, by purpose. */
  datatype Written = Written(counts: seq<Write>, pinned: seq<Write>, placed: seq<Write>) {

    function All(): seq<Write>
    {
      counts + (pinned + placed)
    }

    /** Each part is a beginning of what was planned. */
    ghost predicate Follows(cfg: Config, host: Host)
    {
      && host.pf.Some?
      && counts <= CountWrites(host.pf.value, cfg.numVFs)
      && pinned <= PfWrites(cfg, host.pf.value)
      && placed <= PlacementWrites(cfg, host)
    }
  }

  /** Try mode goes on to the next part whatever happened to the one before. */
  function TryWritten(cfg: Config, host: Host, fails: Oracle, at: nat): Written
    requires Accepted(cfg, host)
  {
    var pf := host.pf.value;
    var counts, pinned, placed := CountWrites(pf, cfg.numVFs), PfWrites(cfg, pf), PlacementWrites(cfg, host);
    var at1 := After(fails, at, |counts|);
    var at2 := After(fails, at1, |pinned|);
    Written(Stage(fails, at, counts), Stage(fails, at1, pinned), Stage(fails, at2, placed))
  }

  /** Writes to sriov_numvfs only, in order. */
  function CountsOf(ws: seq<Write>): seq<Write>
  {
    if ws == [] then []
    else (if ws[0].file.NumVfs? then [ws[0]] else []) + CountsOf(ws[1..])
  }

  lemma {:induction false} CountsOfAppend(a: seq<Write>, b: seq<Write>)
    ensures CountsOf(a + b) == CountsOf(a) + CountsOf(b)
  {
    if a == [] {
      assert a + b == b;
    } else {
      var first := if a[0].file.NumVfs? then [a[0]] else [];
      assert (a + b)[0] == a[0] && (a + b)[1..] == a[1..] + b;
      CountsOfAppend(a[1..], b);
      assert first + (CountsOf(a[1..]) + CountsOf(b)) == (first + CountsOf(a[1..])) + CountsOf(b);
    }
  }

  lemma {:induction false} CountsOfUniform(ws: seq<Write>)
    ensures (forall i :: 0 <= i < |ws| ==> ws[i].file.NumVfs?) ==> CountsOf(ws) == ws
    ensures (forall i :: 0 <= i < |ws| ==> !ws[i].file.NumVfs?) ==> CountsOf(ws) == []
  {
    if ws != [] {
      CountsOfUniform(ws[1..]);
    }
  }

  lemma CountsOfWritten(cfg: Config, host: Host, w: Written)
    requires w.Follows(cfg, host)
    ensures CountsOf(w.All()) == w.counts
  {
    hide CountsOf, PlacementWrites;
    var pf := host.pf.value;
    CountsOfAppend(w.counts, w.pinned + w.placed);
    CountsOfAppend(w.pinned, w.placed);
    assert forall i :: 0 <= i < |w.placed| ==> !w.placed[i].file.NumVfs? by {
      PlacementIsNuma(cfg, host);
      assert forall i :: 0 <= i < |w.placed| ==> w.placed[i] == PlacementWrites(cfg, host)[i];
    }
    CountsOfUniform(w.counts);
    CountsOfUniform(w.pinned);
    CountsOfUniform(w.placed);
  }

  lemma PlacementIsNuma(cfg: Config, host: Host)
    ensures forall i :: 0 <= i < |PlacementWrites(cfg, host)| ==> PlacementWrites(cfg, host)[i].file.NumaNode?
  {
  }

  /** What a strict run writes and returns, by whether setting the count fails. */
  lemma StrictStart(cfg: Config, host: Host, fails: Oracle, at: nat)
    requires Accepted(cfg, host)
    ensures var pf := host.pf.value;
            var counts, rest := CountWrites(pf, cfg.numVFs), PfWrites(cfg, pf) + PlacementWrites(cfg, host);
            var writes, err := Stage(fails, at, Plan(cfg, host)), StrictError(cfg, host, Done(fails, at, |Plan(cfg, host)|));
            var first, at1 := CountError(pf, cfg.numVFs, Done(fails, at, |counts|)), After(fails, at, |counts|);
            if first.Some? then writes == Stage(fails, at, counts) && err == first
            else
              && writes == Stage(fails, at, counts) + Stage(fails, at1, rest)
              && err == NumaError(cfg, host, Done(fails, at1, |rest|))
  {
    hide PlacementWrites, CountWrites, PfWrites, Done, NumaError, Stage;
    var pf := host.pf.value;
    StageAppend(fails, at, CountWrites(pf, cfg.numVFs), PfWrites(cfg, pf) + PlacementWrites(cfg, host));
    StageIsPrefix(fails, at, CountWrites(pf, cfg.numVFs));
  }

  /** The same for the writes that follow, by whether moving the PF fails. */
  lemma NumaStart(cfg: Config, host: Host, fails: Oracle, at: nat)
    requires host.pf.Some?
    ensures var pinned, placed := PfWrites(cfg, host.pf.value), PlacementWrites(cfg, host);
            var writes, err := Stage(fails, at, pinned + placed), NumaError(cfg, host, Done(fails, at, |pinned + placed|));
            var at1 := After(fails, at, |pinned|);
            var k1, k2 := Done(fails, at, |pinned|), Done(fails, at1, |placed|);
            if k1 < |pinned| then writes == Stage(fails, at, pinned) && err == Some(PfNuma)
            else
              && writes == Stage(fails, at, pinned) + Stage(fails, at1, placed)
              && err == if k2 < |placed| then Some(VfNuma(k2)) else ListError(cfg, host)
  {
    hide PlacementWrites, PfWrites, Done, ListError, Stage;
    StageAppend(fails, at, PfWrites(cfg, host.pf.value), PlacementWrites(cfg, host));
    StageIsPrefix(fails, at, PfWrites(cfg, host.pf.value));
  }

  /** What try mode writes begins with what strict mode writes, and is the same if no write fails. */
  lemma TryContinuesStrict(cfg: Config, host: Host, fails: Oracle, at: nat)
    requires Accepted(cfg, host)
    ensures Stage(fails, at, Plan(cfg, host)) <= TryWritten(cfg, host, fails, at).All()
    ensures Done(fails, at, |Plan(cfg, host)|) == |Plan(cfg, host)| ==>
              TryWritten(cfg, host, fails, at).All() == Plan(cfg, host)
    ensures TryWritten(cfg, host, fails, at).Follows(cfg, host)
  {
    hide PlacementWrites, CountWrites, PfWrites, Done, Stage;
    var pf := host.pf.value;
    var counts, pinned, placed := CountWrites(pf, cfg.numVFs), PfWrites(cfg, pf), PlacementWrites(cfg, host);
    var w := TryWritten(cfg, host, fails, at);
    StageAppend(fails, at, counts, pinned + placed);
    StageIsPrefix(fails, at, counts);
    StageIsPrefix(fails, After(fails, at, |counts|), pinned);
    StageIsPrefix(fails, After(fails, After(fails, at, |counts|), |pinned|), placed);
    StageContinues(fails, After(fails, at, |counts|), pinned, placed);
  }

  /** In both modes what is written to sriov_numvfs is a beginning of the reset. */
  lemma CountsAreReset(cfg: Config, host: Host, fails: Oracle, at: nat)
    requires Accepted(cfg, host)
    ensures CountsOf(TryWritten(cfg, host, fails, at).All()) <= CountWrites(host.pf.value, cfg.numVFs)
    ensures CountsOf(Stage(fails, at, Plan(cfg, host))) <= CountWrites(host.pf.value, cfg.numVFs)
  {
    hide PlacementWrites, CountWrites, PfWrites, CountsOf, TryWritten, Stage, Plan, Done;
    TryContinuesStrict(cfg, host, fails, at);
    var w, strict := TryWritten(cfg, host, fails, at), Stage(fails, at, Plan(cfg, host));
    CountsOfWritten(cfg, host, w);
    assert w.All() == strict + w.All()[|strict|..];
    CountsOfAppend(strict, w.All()[|strict|..]);
  }

  /** The step of `run` that moves the PF, if that was asked for. */
  method PlacePF(cfg: Config, pf: PF, fs: Sysfs) returns (failure: Option<Failure>)
    modifies fs
    ensures fs.log == old(fs.log) + Stage(fs.fails, old(fs.attempts), PfWrites(cfg, pf))
    ensures fs.attempts == After(fs.fails, old(fs.attempts), |PfWrites(cfg, pf)|)
    ensures failure == if Done(fs.fails, old(fs.attempts), |PfWrites(cfg, pf)|) < |PfWrites(cfg, pf)| then Some(PfNuma) else None
  {
    failure := None;
    if cfg.pfNUMANode >= 0 {
      failure := SetPFNUMANode(fs, pf, cfg.pfNUMANode);
    }
  }

  // ----------------------------------------- what is written, without a plan

  /** Writes to numa_node files only, in order. */
  function NumaOf(ws: seq<Write>): seq<Write>
  {
    if ws == [] then []
    else (if ws[0].file.NumaNode? then [ws[0]] else []) + NumaOf(ws[1..])
  }

  lemma {:induction false} NumaOfAppend(a: seq<Write>, b: seq<Write>)
    ensures NumaOf(a + b) == NumaOf(a) + NumaOf(b)
  {
    if a == [] {
      assert a + b == b;
    } else {
      var first := if a[0].file.NumaNode? then [a[0]] else [];
      assert (a + b)[0] == a[0] && (a + b)[1..] == a[1..] + b;
      NumaOfAppend(a[1..], b);
      assert first + (NumaOf(a[1..]) + NumaOf(b)) == (first + NumaOf(a[1..])) + NumaOf(b);
    }
  }

  lemma {:induction false} NumaOfUniform(ws: seq<Write>)
    ensures (forall i :: 0 <= i < |ws| ==> ws[i].file.NumaNode?) ==> NumaOf(ws) == ws
    ensures (forall i :: 0 <= i < |ws| ==> !ws[i].file.NumaNode?) ==> NumaOf(ws) == []
  {
    if ws != [] {
      NumaOfUniform(ws[1..]);
    }
  }

  /** How many VFs are to be placed. */
  function VfTargets(cfg: Config, host: Host): nat
  {
    if host.vfs.Some? && cfg.numVFs != 0 && (cfg.pfNUMANode >= 0 || (host.nodes.Some? && host.nodes.value != []))
    then |host.vfs.value| else 0
  }

  /** `w` puts the `j`-th VF on the given node, or else on the node whose turn it is. */
  predicate PlacesVf(cfg: Config, host: Host, w: Write, j: nat)
  {
    && j < VfTargets(cfg, host)
    && w.file == NumaNode(host.vfs.value[j])
    && w.value == if cfg.pfNUMANode >= 0 then cfg.pfNUMANode else host.nodes.value[j % |host.nodes.value|]
  }

  /** From `lead` on, the writes place the VFs one after the other. */
  ghost predicate PlacesFrom(cfg: Config, host: Host, numa: seq<Write>, lead: nat)
  {
    lead <= |numa| && forall k :: lead <= k < |numa| ==> PlacesVf(cfg, host, numa[k], k - lead)
  }

  /** The first write moves the PF to the node that was given, and the others place the VFs. */
  ghost predicate PlacesPfFirst(cfg: Config, host: Host, numa: seq<Write>)
  {
    && cfg.pfNUMANode >= 0 && host.pf.Some?
    && numa != [] && numa[0] == Write(NumaNode(host.pf.value.path), cfg.pfNUMANode)
    && PlacesFrom(cfg, host, numa, 1)
  }

  /** What a run has written, whatever failed: counts, then the PF unless that failed, then VFs from the first on. */
  ghost predicate WrittenRightly(cfg: Config, host: Host, ws: seq<Write>)
  {
    && ws == CountsOf(ws) + NumaOf(ws)
    && (PlacesFrom(cfg, host, NumaOf(ws), 0) || PlacesPfFirst(cfg, host, NumaOf(ws)))
  }

  /** What a run has written if nothing failed. */
  ghost predicate WrittenFully(cfg: Config, host: Host, ws: seq<Write>)
  {
    && host.pf.Some?
    && (if cfg.pfNUMANode >= 0 then PlacesPfFirst(cfg, host, NumaOf(ws)) && |NumaOf(ws)| == 1 + VfTargets(cfg, host)
        else PlacesFrom(cfg, host, NumaOf(ws), 0) && |NumaOf(ws)| == VfTargets(cfg, host))
    && (if host.pf.value.currentVFs == cfg.numVFs then CountsOf(ws) == []
        else CountsOf(ws) != [] && CountsOf(ws)[|CountsOf(ws)| - 1] == Write(NumVfs(host.pf.value.path), cfg.numVFs))
  }

  lemma PlacementMeans(cfg: Config, host: Host)
    ensures var ws := PlacementWrites(cfg, host);
            |ws| == VfTargets(cfg, host) && forall j :: 0 <= j < |ws| ==> PlacesVf(cfg, host, ws[j], j)
  {
  }

  /** The writes to numa_node files among them. */
  lemma FollowingPlaces(cfg: Config, host: Host, w: Written)
    requires w.Follows(cfg, host)
    ensures var numa := w.pinned + w.placed;
            && (PlacesFrom(cfg, host, numa, 0) || PlacesPfFirst(cfg, host, numa))
            && forall i :: 0 <= i < |numa| ==> numa[i].file.NumaNode?
  {
    hide PlacementWrites, PlacesVf, PlacesFrom, PlacesPfFirst;
    FollowingParts(cfg, host, w);
    PlacementIsNuma(cfg, host);
    assert forall i :: 0 <= i < |w.placed| ==> w.placed[i] == PlacementWrites(cfg, host)[i];
  }

  lemma FollowingIsRight(cfg: Config, host: Host, w: Written)
    requires w.Follows(cfg, host)
    ensures WrittenRightly(cfg, host, w.All())
    ensures CountsOf(w.All()) == w.counts && NumaOf(w.All()) == w.pinned + w.placed
  {
    hide CountsOf, NumaOf, PlacementWrites, PfWrites, CountWrites, PlacesFrom, PlacesPfFirst;
    CountsOfWritten(cfg, host, w);
    FollowingPlaces(cfg, host, w);
    assert forall i :: 0 <= i < |w.counts| ==> w.counts[i].file.NumVfs? by { CountsAreCounts(cfg, host, w); }
    NumaOfParts(w.counts, w.pinned + w.placed);
  }

  lemma CountsAreCounts(cfg: Config, host: Host, w: Written)
    requires w.Follows(cfg, host)
    ensures forall i :: 0 <= i < |w.counts| ==> w.counts[i].file.NumVfs?
  {
    hide PlacementWrites, PfWrites;
  }

  lemma NumaOfParts(counts: seq<Write>, numa: seq<Write>)
    requires forall i :: 0 <= i < |counts| ==> counts[i].file.NumVfs?
    requires forall i :: 0 <= i < |numa| ==> numa[i].file.NumaNode?
    ensures NumaOf(counts + numa) == numa
  {
    hide NumaOf;
    NumaOfAppend(counts, numa);
    NumaOfUniform(counts);
    NumaOfUniform(numa);
    assert [] + numa == numa;
  }

  lemma FullIsComplete(cfg: Config, host: Host)
    requires Accepted(cfg, host)
    ensures WrittenFully(cfg, host, Plan(cfg, host))
  {
    hide CountsOf, NumaOf, PlacementWrites, PlacesVf;
    var w := Written(CountWrites(host.pf.value, cfg.numVFs), PfWrites(cfg, host.pf.value), PlacementWrites(cfg, host));
    FollowingIsRight(cfg, host, w);
    PlacementMeans(cfg, host);
    var numa := w.pinned + w.placed;
    if cfg.pfNUMANode >= 0 {
      assert numa[0] == w.pinned[0] && forall k :: 1 <= k < |numa| ==> numa[k] == w.placed[k - 1];
    } else {
      assert numa == w.placed;
    }
  }

  /** What a strict run writes, by purpose. */
  lemma StrictWritten(cfg: Config, host: Host, fails: Oracle, at: nat) returns (w: Written)
    requires Accepted(cfg, host)
    ensures w.Follows(cfg, host) && w.All() == Stage(fails, at, Plan(cfg, host))
  {
    hide CountWrites, PfWrites, PlacementWrites, Done, Stage;
    var pf := host.pf.value;
    var counts, pinned, placed := CountWrites(pf, cfg.numVFs), PfWrites(cfg, pf), PlacementWrites(cfg, host);
    var at1 := at + |counts|;
    StageAppend(fails, at, counts, pinned + placed);
    StageAppend(fails, at1, pinned, placed);
    StageIsPrefix(fails, at, counts);
    StageIsPrefix(fails, at1, pinned);
    StageIsPrefix(fails, at1 + |pinned|, placed);
    if Done(fails, at, |counts|) < |counts| {
      w := Written(Stage(fails, at, counts), [], []);
    } else if Done(fails, at1, |pinned|) < |pinned| {
      w := Written(counts, Stage(fails, at1, pinned), []);
      assert Stage(fails, at1, pinned) + [] == Stage(fails, at1, pinned);
    } else {
      w := Written(counts, pinned, Stage(fails, at1 + |pinned|, placed));
    }
  }

  lemma RunIsRight(cfg: Config, host: Host, fails: Oracle, at: nat)
    requires Accepted(cfg, host)
    ensures WrittenRightly(cfg, host, Stage(fails, at, Plan(cfg, host)))
    ensures WrittenRightly(cfg, host, TryWritten(cfg, host, fails, at).All())
    ensures Clear(fails, at, Steps(cfg, host)) ==> WrittenFully(cfg, host, Stage(fails, at, Plan(cfg, host)))
    ensures Clear(fails, at, Steps(cfg, host)) ==> WrittenFully(cfg, host, TryWritten(cfg, host, fails, at).All())
  {
    hide WrittenRightly, WrittenFully, Plan, TryWritten, Stage, Done, Steps;
    var w := StrictWritten(cfg, host, fails, at);
    FollowingIsRight(cfg, host, w);
    TryContinuesStrict(cfg, host, fails, at);
    FollowingIsRight(cfg, host, TryWritten(cfg, host, fails, at));
    PlanSteps(cfg, host);
    DoneMeans(fails, at, |Plan(cfg, host)|, |Plan(cfg, host)|);
    StageIsPrefix(fails, at, Plan(cfg, host));
    FullIsComplete(cfg, host);
  }

  // -------------------------------------- what is reported, without a plan

  /** How many writes the count takes. */
  function CountSteps(pf: PF, requested: int): nat
  {
    if pf.currentVFs == requested then 0 else if pf.currentVFs > 0 then 2 else 1
  }

  /** How many writes there are if none fails. */
  function Steps(cfg: Config, host: Host): nat
    requires host.pf.Some?
  {
    CountSteps(host.pf.value, cfg.numVFs) + (if cfg.pfNUMANode >= 0 then 1 else 0) + VfTargets(cfg, host)
  }

  lemma PlanSteps(cfg: Config, host: Host)
    requires Accepted(cfg, host)
    ensures |Plan(cfg, host)| == Steps(cfg, host)
  {
    hide PlacementWrites;
    PlacementMeans(cfg, host);
  }

  /** Which attempt failed, and which reading, for each error of an accepted strict run. */
  ghost predicate ReportedRightly(cfg: Config, host: Host, fails: Oracle, at: nat, err: Option<Failure>)
    requires host.pf.Some?
  {
    var c := CountSteps(host.pf.value, cfg.numVFs);
    var lists := c + if cfg.pfNUMANode >= 0 then 1 else 0;
    && (err == Some(VfReset) <==> c == 2 && StopsAt(fails, at, 0))
    && (err == Some(VfConfigure) <==> c > 0 && StopsAt(fails, at, c - 1))
    && (err == Some(PfNuma) <==> cfg.pfNUMANode >= 0 && StopsAt(fails, at, c))
    && (forall k: nat :: err == Some(VfNuma(k)) <==> k < VfTargets(cfg, host) && StopsAt(fails, at, lists + k))
    && (err == Some(ListVfs) <==> Clear(fails, at, lists) && host.vfs.None?)
    && (err == Some(ListNodes) <==>
          Clear(fails, at, lists) && host.vfs.Some? && host.vfs.value != [] && cfg.numVFs != 0 && cfg.pfNUMANode < 0 && host.nodes.None?)
  }

  /** Attempts to set the count, given which fail: a failing reset is the last one. */
  function CountAttempts(pf: PF, requested: int, fails: Oracle, at: nat): nat
  {
    if CountSteps(pf, requested) == 2 && fails(at) then 1 else CountSteps(pf, requested)
  }

  /** Try mode goes on: the PF is moved unless that write fails, and VFs whose writes do not fail are all placed. */
  ghost predicate TriedOn(cfg: Config, host: Host, fails: Oracle, at: nat, ws: seq<Write>)
    requires host.pf.Some?
  {
    var at1 := at + CountAttempts(host.pf.value, cfg.numVFs, fails, at);
    var moved := cfg.pfNUMANode >= 0 && !fails(at1);
    var at2 := at1 + if cfg.pfNUMANode >= 0 then 1 else 0;
    && (moved ==> PlacesPfFirst(cfg, host, NumaOf(ws)))
    && (!moved ==> PlacesFrom(cfg, host, NumaOf(ws), 0))
    && (Clear(fails, at2, VfTargets(cfg, host)) ==> |NumaOf(ws)| == VfTargets(cfg, host) + if moved then 1 else 0)
  }

  lemma TryGoesOn(cfg: Config, host: Host, fails: Oracle, at: nat)
    requires Accepted(cfg, host)
    ensures TriedOn(cfg, host, fails, at, TryWritten(cfg, host, fails, at).All())
  {
    var pf := host.pf.value;
    var counts, pinned, placed := CountWrites(pf, cfg.numVFs), PfWrites(cfg, pf), PlacementWrites(cfg, host);
    var w := TryWritten(cfg, host, fails, at);
    var at1 := After(fails, at, |counts|);
    var at2 := After(fails, at1, |pinned|);
    AttemptsOfCount(pf, cfg.numVFs, fails, at);
    AttemptOfPf(cfg, pf, fails, at1);
    hide CountsOf, NumaOf, PlacementWrites, PlacesVf, Done, CountWrites, PfWrites;
    TryContinuesStrict(cfg, host, fails, at);
    FollowingIsRight(cfg, host, w);
    FollowingParts(cfg, host, w);
    PlacementMeans(cfg, host);
    DoneMeans(fails, at2, |placed|, |placed|);
  }

  lemma AttemptsOfCount(pf: PF, requested: int, fails: Oracle, at: nat)
    ensures After(fails, at, |CountWrites(pf, requested)|) == at + CountAttempts(pf, requested, fails, at)
  {
  }

  lemma AttemptOfPf(cfg: Config, pf: PF, fails: Oracle, at: nat)
    ensures var n := |PfWrites(cfg, pf)|;
            && n == (if cfg.pfNUMANode >= 0 then 1 else 0)
            && After(fails, at, n) == at + n
            && |Stage(fails, at, PfWrites(cfg, pf))| == if n == 1 && !fails(at) then 1 else 0
  {
  }

  lemma FollowingParts(cfg: Config, host: Host, w: Written)
    requires w.Follows(cfg, host)
    ensures w.pinned == [] ==> PlacesFrom(cfg, host, w.pinned + w.placed, 0)
    ensures w.pinned != [] ==> PlacesPfFirst(cfg, host, w.pinned + w.placed)
  {
    hide PlacementWrites, PlacesVf;
    PlacementMeans(cfg, host);
    var numa := w.pinned + w.placed;
    assert forall i :: 0 <= i < |w.placed| ==> w.placed[i] == PlacementWrites(cfg, host)[i];
    if w.pinned == [] {
      assert numa == w.placed;
    } else {
      assert numa[0] == w.pinned[0] && forall k :: 1 <= k < |numa| ==> numa[k] == w.placed[k - 1];
    }
  }

  /** Why a request is turned down. */
  ghost predicate RejectedRightly(cfg: Config, host: Host, err: Option<Failure>)
  {
    && (err == Some(BadNumVfs) <==> cfg.numVFs < 0)
    && (err == Some(BadSysfs) <==> cfg.numVFs >= 0 && !host.sysfsIsDir)
    && (err == Some(NoPf) <==> cfg.numVFs >= 0 && host.sysfsIsDir && host.pf.None?)
    && (err == Some(TooManyVfs) <==> cfg.numVFs >= 0 && host.sysfsIsDir && host.pf.Some? && cfg.numVFs > host.pf.value.totalVFs)
  }

  lemma StrictErrorIsNoRejection(cfg: Config, host: Host, k: nat)
    requires Accepted(cfg, host)
    ensures RejectedRightly(cfg, host, StrictError(cfg, host, k))
  {
  }

  lemma StrictErrorMeans(cfg: Config, host: Host, fails: Oracle, at: nat)
    requires Accepted(cfg, host)
    ensures ReportedRightly(cfg, host, fails, at, StrictError(cfg, host, Done(fails, at, |Plan(cfg, host)|)))
  {
    hide Done, PlacementWrites, Clear, StopsAt, Plan;
    var pf := host.pf.value;
    var c, p := CountSteps(pf, cfg.numVFs), |PfWrites(cfg, pf)|;
    var n, total := VfTargets(cfg, host), |Plan(cfg, host)|;
    var err := StrictError(cfg, host, Done(fails, at, total));
    PlacementMeans(cfg, host);
    PlanSteps(cfg, host);
    assert |CountWrites(pf, cfg.numVFs)| == c && total == c + p + n;
    DoneMeans(fails, at, total, 0);
    if c > 0 { DoneMeans(fails, at, total, c - 1); }
    DoneMeans(fails, at, total, c);
    DoneMeans(fails, at, total, c + p);
    forall k: nat ensures err == Some(VfNuma(k)) <==> k < n && StopsAt(fails, at, c + p + k) {
      if k < n { DoneMeans(fails, at, total, c + p + k); }
    }
  }

  /** The last steps of `run`: find the VFs and the nodes, and place one on the other. */
  method PlaceVFs(cfg: Config, host: Host, fs: Sysfs) returns (failure: Option<Failure>)
    modifies fs
    ensures fs.log == old(fs.log) + Stage(fs.fails, old(fs.attempts), PlacementWrites(cfg, host))
    ensures failure == var n := |PlacementWrites(cfg, host)|;
                       var k := Done(fs.fails, old(fs.attempts), n);
                       if k < n then Some(VfNuma(k)) else ListError(cfg, host)
  {
    if host.vfs.None? {
      return Some(ListVfs);
    }
    var vfs := host.vfs.value;
    if vfs == [] || cfg.numVFs == 0 {
      return None;
    }
    if cfg.pfNUMANode >= 0 {
      failure := PinVFNUMA(fs, vfs, cfg.pfNUMANode);
    } else {
      if host.nodes.None? {
        return Some(ListNodes);
      }
      if host.nodes.value == [] {
        return None;
      }
      failure := BalanceVFNUMA(fs, vfs, host.nodes.value);
    }
  }

  /** The error policy of `run`: in try mode failures are only recorded. */
  function Handle(cfg: Config, failure: Option<Failure>): Option<Failure>
  {
    if cfg.tryMode then None else failure
  }

  /** The PF first, then the VFs. */
  method PlaceDevices(cfg: Config, host: Host, pf: PF, fs: Sysfs) returns (err: Option<Failure>)
    requires host.pf == Some(pf)
    modifies fs
    ensures var at, pinned, placed := old(fs.attempts), PfWrites(cfg, pf), PlacementWrites(cfg, host);
            if cfg.tryMode then
              && err.None?
              && fs.log == old(fs.log) + (Stage(fs.fails, at, pinned) + Stage(fs.fails, After(fs.fails, at, |pinned|), placed))
            else
              && err == NumaError(cfg, host, Done(fs.fails, at, |pinned + placed|))
              && fs.log == old(fs.log) + Stage(fs.fails, at, pinned + placed)
  {
    ghost var start, at, pinned, placed := fs.log, fs.attempts, PfWrites(cfg, pf), PlacementWrites(cfg, host);
    NumaStart(cfg, host, fs.fails, at);
    hide PlacementWrites, PfWrites, Done, ListError, NumaError, Stage, After;
    var failure := PlacePF(cfg, pf, fs);
    err := Handle(cfg, failure);
    if err.Some? {
      return;
    }
    failure := PlaceVFs(cfg, host, fs);
    err := Handle(cfg, failure);
    Associative(start, Stage(fs.fails, at, pinned), Stage(fs.fails, After(fs.fails, at, |pinned|), placed));
  }

  /** The part of `run` that writes, once the device is known and the request is in range. */
  method Configure(cfg: Config, host: Host, pf: PF, fs: Sysfs) returns (err: Option<Failure>)
    requires Accepted(cfg, host) && host.pf == Some(pf)
    modifies fs
    ensures cfg.tryMode ==> err.None?
    ensures cfg.tryMode ==> fs.log == old(fs.log) + TryWritten(cfg, host, fs.fails, old(fs.attempts)).All()
    ensures !cfg.tryMode ==> fs.log == old(fs.log) + Stage(fs.fails, old(fs.attempts), Plan(cfg, host))
    ensures !cfg.tryMode ==> err == StrictError(cfg, host, Done(fs.fails, old(fs.attempts), |Plan(cfg, host)|))
  {
    ghost var start, at, counts := fs.log, fs.attempts, CountWrites(pf, cfg.numVFs);
    ghost var all := TryWritten(cfg, host, fs.fails, at);
    ghost var rest := PfWrites(cfg, pf) + PlacementWrites(cfg, host);
    ghost var strict := Stage(fs.fails, After(fs.fails, at, |counts|), rest);
    StrictStart(cfg, host, fs.fails, at);
    hide PlacementWrites, CountWrites, PfWrites, Done, NumaError, Stage, Plan, StrictError, After;
    var failure := SetNumVFs(fs, pf, cfg.numVFs);
    err := Handle(cfg, failure);
    if err.Some? {
      return;
    }
    err := PlaceDevices(cfg, host, pf, fs);
    Associative(start, all.counts, if cfg.tryMode then all.pinned + all.placed else strict);
  }

  /**
   * `run`, over every pattern of failing reads and writes. Strict mode writes the plan up to the
   * first write that fails, and the error it returns tells which one that was. Try mode returns
   * no error and writes as much of each part as its own failures allow. In both modes what is
   * written to sriov_numvfs is a beginning of the two-step reset.
   */
  method Run(cfg: Config, host: Host, fs: Sysfs) returns (err: Option<Failure>)
    modifies fs
    ensures cfg.tryMode ==> err.None?
    ensures !Accepted(cfg, host) ==> fs.log == old(fs.log)
    ensures !Accepted(cfg, host) && !cfg.tryMode ==> err == Rejection(cfg, host)
    ensures !cfg.tryMode ==> fs.log == old(fs.log) + Stage(fs.fails, old(fs.attempts), Plan(cfg, host))
    ensures Accepted(cfg, host) && !cfg.tryMode ==>
              err == StrictError(cfg, host, Done(fs.fails, old(fs.attempts), |Plan(cfg, host)|))
    ensures Accepted(cfg, host) && cfg.tryMode ==>
              fs.log == old(fs.log) + TryWritten(cfg, host, fs.fails, old(fs.attempts)).All()
    ensures Accepted(cfg, host) ==> CountsOf(fs.log[|old(fs.log)|..]) <= CountWrites(host.pf.value, cfg.numVFs)
    ensures Accepted(cfg, host) ==> CountsAreSafe(host.pf.value, CountsOf(fs.log[|old(fs.log)|..]))
    ensures !cfg.tryMode ==> RejectedRightly(cfg, host, err)
    ensures Accepted(cfg, host) && !cfg.tryMode ==> ReportedRightly(cfg, host, fs.fails, old(fs.attempts), err)
    ensures Accepted(cfg, host) ==> WrittenRightly(cfg, host, fs.log[|old(fs.log)|..])
    ensures Accepted(cfg, host) && cfg.tryMode ==> TriedOn(cfg, host, fs.fails, old(fs.attempts), fs.log[|old(fs.log)|..])
    ensures Accepted(cfg, host) && Clear(fs.fails, old(fs.attempts), Steps(cfg, host)) ==>
              WrittenFully(cfg, host, fs.log[|old(fs.log)|..])
  {
    if cfg.numVFs < 0 {
      return Handle(cfg, Some(BadNumVfs));
    }
    if !host.sysfsIsDir {
      return Handle(cfg, Some(BadSysfs));
    }
    if host.pf.None? {
      return Handle(cfg, Some(NoPf));
    }
    var pf := host.pf.value;
    if cfg.numVFs > pf.totalVFs {
      return Handle(cfg, Some(TooManyVfs));
    }
    ghost var start, at := fs.log, fs.attempts;
    StrictErrorIsNoRejection(cfg, host, Done(fs.fails, at, |Plan(cfg, host)|));
    hide PlacementWrites, CountWrites, PfWrites, CountsOf, StrictError, Done, TryWritten, Plan, Rejection, CountsAreSafe;
    hide WrittenRightly, WrittenFully, ReportedRightly, RejectedRightly, TriedOn, Clear, Steps;
    TryGoesOn(cfg, host, fs.fails, at);
    StrictErrorMeans(cfg, host, fs.fails, at);
    RunIsRight(cfg, host, fs.fails, at);
    err := Configure(cfg, host, pf, fs);
    CountsAreReset(cfg, host, fs.fails, at);
    assert cfg.tryMode ==> fs.log[|start|..] == TryWritten(cfg, host, fs.fails, at).All();
    assert !cfg.tryMode ==> fs.log[|start|..] == Stage(fs.fails, at, Plan(cfg, host));
    BeginningIsSafe(cfg, host, CountsOf(fs.log[|start|..]));
  }

  // ------------------------------------------------------ the number of VFs

  /** Every count is one the device can have, and none follows directly on a different one but zero. */
  ghost predicate CountsAreSafe(pf: PF, counts: seq<Write>)
  {
    && (forall i :: 0 <= i < |counts| ==> counts[i].file == NumVfs(pf.path) && 0 <= counts[i].value <= pf.totalVFs)
    && (pf.currentVFs >= 0 ==> NeverJumps(History(pf, counts)))
  }

  lemma BeginningIsSafe(cfg: Config, host: Host, counts: seq<Write>)
    requires Accepted(cfg, host) && counts <= CountWrites(host.pf.value, cfg.numVFs)
    ensures CountsAreSafe(host.pf.value, counts)
  {
    hide CountWrites, NeverJumps, History;
    var pf, ws := host.pf.value, CountWrites(host.pf.value, cfg.numVFs);
    CountsInRange(cfg, host);
    NeverJumpsIff(pf, cfg.numVFs);
    assert counts == ws[..|counts|];
  }

  /** The values that sriov_numvfs takes: what was read, then what is written. */
  function History(pf: PF, ws: seq<Write>): seq<int>
  {
    [pf.currentVFs] + seq(|ws|, i requires 0 <= i < |ws| => ws[i].value)
  }

  /** The kernel refuses to go from one non-zero number of VFs to another. */
  ghost predicate NeverJumps(values: seq<int>)
  {
    forall i :: 0 <= i < |values| - 1 ==> values[i] == 0 || values[i + 1] == 0 || values[i] == values[i + 1]
  }

  /**
   * The count never goes directly from one non-zero value to a different one, wherever the
   * writes stop, exactly when the file did not hold a negative number to begin with (or the
   * request is zero). The code tests for greater than zero only.
   */
  lemma NeverJumpsIff(pf: PF, requested: int)
    requires requested >= 0
    ensures (forall k: nat :: k <= |CountWrites(pf, requested)| ==> NeverJumps(History(pf, CountWrites(pf, requested)[..k])))
            <==> pf.currentVFs >= 0 || requested == 0
  {
    var ws := CountWrites(pf, requested);
    if pf.currentVFs >= 0 || requested == 0 {
      forall k: nat | k <= |ws| ensures NeverJumps(History(pf, ws[..k])) {
        var h := History(pf, ws[..k]);
        assert forall i :: 0 < i < |h| ==> h[i] == ws[i - 1].value;
      }
    } else {
      var h := History(pf, ws[..1]);
      assert h[0] == pf.currentVFs && h[1] == requested;
      assert !NeverJumps(h);
    }
  }

  /** A device file with a negative count breaks the rule. */
  lemma NegativeCountJumps(path: Str)
    ensures var pf := PF(path, path, 8, -1); !NeverJumps(History(pf, CountWrites(pf, 4)))
  {
    var pf := PF(path, path, 8, -1);
    var h := History(pf, CountWrites(pf, 4));
    assert h[0] == -1 && h[1] == 4;
  }

  /** Every value written lies between zero and the device's maximum, and the last is the request. */
  lemma CountsInRange(cfg: Config, host: Host)
    requires Accepted(cfg, host)
    ensures var ws := CountWrites(host.pf.value, cfg.numVFs);
            && (forall i :: 0 <= i < |ws| ==> ws[i].file == NumVfs(host.pf.value.path) && 0 <= ws[i].value <= host.pf.value.totalVFs)
            && History(host.pf.value, ws)[|ws|] == cfg.numVFs
  {
  }

  // ------------------------------------------------------------ round robin

  /** The position whose turn it is after `k` VFs. */
  function Turn(k: nat, n: nat): nat
    requires n > 0
  {
    k % n
  }

  /** The rounds that `k` VFs complete. */
  function Rounds(k: nat, n: nat): nat
    requires n > 0
  {
    k / n
  }

  /** How many of the first `k` VFs go to position `p` of `n` nodes. */
  function Placed(k: nat, n: nat, p: nat): nat
    requires n > 0
  {
    if k == 0 then 0 else Placed(k - 1, n, p) + if Turn(k - 1, n) == p then 1 else 0
  }

  lemma DivModUnique(k: nat, n: nat, q: nat, r: nat)
    requires n > 0 && r < n && k == n * q + r
    ensures k / n == q && k % n == r
  {
    var q', r' := k / n, k % n;
    assert k == n * q' + r';
    if q > q' {
      assert n * (q - q') == n * q - n * q';
      Scale(n, q - q');
    } else if q < q' {
      assert n * (q' - q) == n * q' - n * q;
      Scale(n, q' - q);
    }
  }

  lemma Scale(n: nat, d: nat)
    requires d >= 1
    ensures n * d >= n
  {
    assert n * d == n + n * (d - 1);
  }

  /** One VF more either completes a round or moves on within it. */
  lemma NextTurn(k: nat, n: nat)
    requires n > 0
    ensures Turn(k, n) < n
    ensures Turn(k, n) == n - 1 ==> Rounds(k + 1, n) == Rounds(k, n) + 1 && Turn(k + 1, n) == 0
    ensures Turn(k, n) < n - 1 ==> Rounds(k + 1, n) == Rounds(k, n) && Turn(k + 1, n) == Turn(k, n) + 1
  {
    var q, r := k / n, k % n;
    assert k == n * q + r;
    NextQuotient(k, n, q, r);
  }

  lemma NextQuotient(k: nat, n: nat, q: nat, r: nat)
    requires n > 0 && r < n && k == n * q + r
    ensures r == n - 1 ==> (k + 1) / n == q + 1 && (k + 1) % n == 0
    ensures r < n - 1 ==> (k + 1) / n == q && (k + 1) % n == r + 1
  {
    if r == n - 1 {
      assert n * (q + 1) == n * q + n;
      DivModUnique(k + 1, n, q + 1, 0);
    } else {
      DivModUnique(k + 1, n, q, r + 1);
    }
  }

  lemma FirstTurn(n: nat)
    requires n > 0
    ensures Turn(0, n) == 0 && Rounds(0, n) == 0
  {
  }

  lemma {:induction false} PlacedByRounds(k: nat, n: nat, p: nat)
    requires n > 0 && p < n
    ensures Placed(k, n, p) == Rounds(k, n) + if p < Turn(k, n) then 1 else 0
  {
    hide Turn, Rounds;
    if k == 0 {
      FirstTurn(n);
    } else {
      PlacedByRounds(k - 1, n, p);
      NextTurn(k - 1, n);
    }
  }

  lemma PlacedIs(k: nat, n: nat, p: nat)
    requires n > 0 && p < n
    ensures Placed(k, n, p) == k / n + if p < k % n then 1 else 0
  {
    hide Placed;
    PlacedByRounds(k, n, p);
  }

  /** Balance is fair at every moment: counts differ by at most one and earlier nodes lead. */
  lemma BalanceIsFair(k: nat, n: nat, p: nat, q: nat)
    requires n > 0 && p <= q < n
    ensures 0 <= Placed(k, n, p) - Placed(k, n, q) <= 1
  {
    hide Placed, Turn, Rounds;
    PlacedByRounds(k, n, p);
    PlacedByRounds(k, n, q);
  }

  /** How many of these writes name `node`. */
  function OnNode(ws: seq<Write>, node: int): nat
  {
    if ws == [] then 0 else OnNode(ws[..|ws| - 1], node) + if ws[|ws| - 1].value == node then 1 else 0
  }

  predicate Distinct(nodes: seq<int>)
  {
    forall i, j :: 0 <= i < j < |nodes| ==> nodes[i] != nodes[j]
  }

  /** Nodes get the same number of VFs, or earlier ones get one more. */
  ghost predicate Balanced(ws: seq<Write>, nodes: seq<int>)
  {
    forall p, q :: 0 <= p <= q < |nodes| ==> 0 <= OnNode(ws, nodes[p]) - OnNode(ws, nodes[q]) <= 1
  }

  lemma AnyBeginningIsBalanced(vfs: seq<Str>, nodes: seq<int>, k: nat)
    requires nodes != [] && k <= |vfs|
    ensures Distinct(nodes) ==> Balanced(BalanceWrites(vfs, nodes)[..k], nodes)
  {
    hide OnNode, Placed;
    if Distinct(nodes) {
      forall p, q | 0 <= p <= q < |nodes|
        ensures 0 <= OnNode(BalanceWrites(vfs, nodes)[..k], nodes[p]) - OnNode(BalanceWrites(vfs, nodes)[..k], nodes[q]) <= 1
      {
        WritesFollowTurns(vfs, nodes, k, p);
        WritesFollowTurns(vfs, nodes, k, q);
        BalanceIsFair(k, |nodes|, p, q);
      }
    }
  }

  /** With distinct nodes, the writes put on each node what its position is due. */
  lemma {:induction false} WritesFollowTurns(vfs: seq<Str>, nodes: seq<int>, k: nat, p: nat)
    requires nodes != [] && k <= |vfs| && p < |nodes|
    requires Distinct(nodes)
    ensures OnNode(BalanceWrites(vfs, nodes)[..k], nodes[p]) == Placed(k, |nodes|, p)
  {
    if k > 0 {
      var ws := BalanceWrites(vfs, nodes);
      assert ws[..k][..k - 1] == ws[..k - 1];
      WritesFollowTurns(vfs, nodes, k - 1, p);
      assert ws[..k][k - 1].value == nodes[(k - 1) % |nodes|];
    }
  }

  // ------------------------------------------------------- choosing a device

  /** A listed device that resolvePF would take. */
  ghost predicate Usable(e: Str, entries: seq<Str>, dirOrLink: Str -> bool, validate: Str -> Option<PF>)
  {
    e in entries && dirOrLink(e) && HasPciShape(e) && validate(e).Some?
  }

  /** `pf` is the usable device with the least name, or there is none. */
  ghost predicate LeastUsable(pf: Option<PF>, entries: seq<Str>, dirOrLink: Str -> bool, validate: Str -> Option<PF>)
  {
    if pf.None? then forall e :: !Usable(e, entries, dirOrLink, validate)
    else exists e :: Usable(e, entries, dirOrLink, validate) && validate(e) == pf
                     && forall e' :: Usable(e', entries, dirOrLink, validate) ==> Leq(e, e')
  }

  /** resolvePF: the device asked for, or the first usable one in the order of names. */
  method ResolvePF(userPCI: Str, entries: Option<seq<Str>>, dirOrLink: Str -> bool, validate: Str -> Option<PF>)
    returns (pf: Option<PF>)
    ensures userPCI != [] ==> pf == if HasPciShape(userPCI) then validate(userPCI) else None
    ensures userPCI == [] && entries.None? ==> pf.None?
    ensures userPCI == [] && entries.Some? ==> LeastUsable(pf, entries.value, dirOrLink, validate)
  {
    hide Sort, HasPciShape, IsPciAddress, LeastUsable, Ascending, Usable;
    if userPCI != [] {
      PciAddressIff(userPCI);
      if !IsPciAddress(userPCI) {
        return None;
      }
      return validate(userPCI);
    }
    if entries.None? {
      return None;
    }
    var sorted := Sort(entries.value);
    SortCorrect(entries.value);
    for i := 0 to |sorted|
      invariant forall j :: 0 <= j < i ==> !Usable(sorted[j], entries.value, dirOrLink, validate)
    {
      var candidate := sorted[i];
      UsableIff(entries.value, sorted, i, dirOrLink, validate);
      if !dirOrLink(candidate) {
        continue;
      }
      if !IsPciAddress(candidate) {
        continue;
      }
      pf := validate(candidate);
      if pf.Some? {
        FirstUsableIsLeast(entries.value, sorted, i, dirOrLink, validate);
        return;
      }
    }
    NoneUsable(entries.value, sorted, dirOrLink, validate);
    return None;
  }

  lemma UsableIff(entries: seq<Str>, sorted: seq<Str>, i: nat, dirOrLink: Str -> bool, validate: Str -> Option<PF>)
    requires i < |sorted| && multiset(sorted) == multiset(entries)
    ensures Usable(sorted[i], entries, dirOrLink, validate)
            <==> dirOrLink(sorted[i]) && IsPciAddress(sorted[i]) && validate(sorted[i]).Some?
  {
    hide HasPciShape, IsPciAddress;
    assert sorted[i] in multiset(sorted);
    PciAddressIff(sorted[i]);
  }

  /** The first usable name of the sorted listing is the least usable one. */
  lemma FirstUsableIsLeast(entries: seq<Str>, sorted: seq<Str>, i: nat, dirOrLink: Str -> bool, validate: Str -> Option<PF>)
    requires i < |sorted| && Ascending(sorted) && multiset(sorted) == multiset(entries)
    requires Usable(sorted[i], entries, dirOrLink, validate)
    requires forall j :: 0 <= j < i ==> !Usable(sorted[j], entries, dirOrLink, validate)
    ensures LeastUsable(validate(sorted[i]), entries, dirOrLink, validate)
  {
    hide HasPciShape, Leq;
    forall e | Usable(e, entries, dirOrLink, validate) ensures Leq(sorted[i], e) {
      assert e in multiset(sorted);
      var j :| 0 <= j < |sorted| && sorted[j] == e;
      LeqTotal(e, e);
    }
  }

  lemma NoneUsable(entries: seq<Str>, sorted: seq<Str>, dirOrLink: Str -> bool, validate: Str -> Option<PF>)
    requires multiset(sorted) == multiset(entries)
    requires forall j :: 0 <= j < |sorted| ==> !Usable(sorted[j], entries, dirOrLink, validate)
    ensures LeastUsable(None, entries, dirOrLink, validate)
  {
    hide HasPciShape;
    forall e | e in entries ensures !Usable(e, entries, dirOrLink, validate) {
      assert e in multiset(sorted);
    }
  }
}
