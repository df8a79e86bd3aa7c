/** setup/pkg/hugepages: splitting huge pages over NUMA nodes. */
module Hugepages {
  import opened Bytes
  import opened Faults

  // -------------------------------------------------------------------- data

  /** A HugePage group of the configuration. */
  datatype Group = Group(size: string, count: int, node: Option<int>)

  /** An nr_hugepages file: its node and its size as sysfs spells it. */
  datatype File = File(node: int, size: string)

  datatype Write = Write(file: File, count: int)

  type Files = map<File, int>

  datatype Outcome = Ok | UnsupportedSize | WriteFailed | Panic

  /** ValidateHugePageSize on amd64. */
  function NormalSize(size: string): Option<string>
  {
    if size == "1G" || size == "1Gi" || size == "1g" then Some("1048576kB")
    else if size == "2M" || size == "2Mi" || size == "2m" then Some("2048kB")
    else None
  }

  function Abs(a: int): nat
  {
    if a >= 0 then a else -a
  }

  /** Go's integer division: toward zero. */
  function Quotient(a: int, b: int): int
    requires b != 0
  {
    if (a >= 0) == (b > 0) then Abs(a) / Abs(b) else -(Abs(a) / Abs(b))
  }

  /** Go's remainder: it takes the sign of the dividend. */
  function Remainder(a: int, b: int): (r: int)
    requires b != 0
    ensures Abs(r) < Abs(b) && (a >= 0 ==> r >= 0) && (a <= 0 ==> r <= 0)
  {
    if a >= 0 then Abs(a) % Abs(b) else -(Abs(a) % Abs(b))
  }

  lemma QuotientRemainder(a: int, b: int)
    requires b != 0
    ensures b * Quotient(a, b) + Remainder(a, b) == a
  {
    var q, r := Abs(a) / Abs(b), Abs(a) % Abs(b);
    assert Abs(b) * q + r == Abs(a);
    assert (-b) * q == -(b * q) && b * -q == -(b * q);
  }

  // ------------------------------------------------------------------- plans

  /** What one node gets of `count` pages: node 0 takes what does not divide evenly. */
  function Share(count: int, zones: int, node: nat): int
    requires zones != 0
  {
    Quotient(count, zones) + if node == 0 then Remainder(count, zones) else 0
  }

  /** The writes for nodes 0 to `upTo`, in order. */
  function SpreadWrites(size: string, count: int, zones: int, upTo: nat): seq<Write>
    requires zones != 0
  {
    seq(upTo, i requires 0 <= i < upTo => Write(File(i, size), Share(count, zones, i)))
  }

  function PickNode(g: Group): int
  {
    match g.node
    case None => 0
    case Some(n) => n
  }

  /** How many nodes are written to: node 0 always, the others by counting up to `zones`. */
  function Nodes(zones: int): nat
  {
    if zones > 1 then zones else 1
  }

  /** The size as sysfs spells it. */
  function SizeOf(g: Group): string
  {
    match NormalSize(g.size)
    case None => ""
    case Some(size) => size
  }

  /** The writes that split a group over the nodes. */
  function GroupShares(zones: int, g: Group): seq<Write>
    requires zones != 0
  {
    SpreadWrites(SizeOf(g), g.count, zones, Nodes(zones))
  }

  /** The writes for one group; the group's node counts only on a single-zone machine. */
  function GroupWrites(zones: int, g: Group): seq<Write>
    requires zones != 0
  {
    if zones == 1 then [Write(File(PickNode(g), SizeOf(g)), g.count)] else GroupShares(zones, g)
  }

  lemma SharesInOrder(zones: int, g: Group)
    requires zones != 0
    ensures var ws, perNode := GroupShares(zones, g), Quotient(g.count, zones);
            && |ws| == Nodes(zones)
            && ws[0] == Write(File(0, SizeOf(g)), perNode + Remainder(g.count, zones))
            && forall i :: 1 <= i < |ws| ==> ws[i] == Write(File(i, SizeOf(g)), perNode)
  {
    hide Quotient, Remainder;
  }

  /** Everything to be written, up to the first group that cannot be provisioned. */
  function Plan(zones: int, groups: seq<Group>): seq<Write>
  {
    if groups == [] || zones == 0 || NormalSize(groups[0].size).None? then []
    else GroupWrites(zones, groups[0]) + Plan(zones, groups[1..])
  }

  lemma PlanFrom(zones: int, groups: seq<Group>, i: nat)
    requires i < |groups| && zones != 0
    ensures Plan(zones, groups[i..])
            == if NormalSize(groups[i].size).None? then []
               else GroupWrites(zones, groups[i]) + Plan(zones, groups[i + 1..])
  {
    hide NormalSize, GroupWrites;
    assert groups[i..][0] == groups[i] && groups[i..][1..] == groups[i + 1..];
  }

  function ApplyWrites(files: Files, ws: seq<Write>): Files
    decreases |ws|
  {
    if ws == [] then files else ApplyWrites(files[ws[0].file := ws[0].count], ws[1..])
  }

  lemma {:induction false} ApplyAppend(files: Files, a: seq<Write>, b: seq<Write>)
    ensures ApplyWrites(files, a + b) == ApplyWrites(ApplyWrites(files, a), b)
    decreases |a|
  {
    if a == [] {
      assert a + b == b;
    } else {
      assert (a + b)[0] == a[0] && (a + b)[1..] == a[1..] + b;
      ApplyAppend(files[a[0].file := a[0].count], a[1..], b);
    }
  }

  lemma ApplySnoc(files: Files, ws: seq<Write>, k: nat)
    requires k < |ws|
    ensures ApplyWrites(files, ws[..k + 1]) == ApplyWrites(files, ws[..k])[ws[k].file := ws[k].count]
  {
    assert ws[..k + 1] == ws[..k] + [ws[k]];
    ApplyAppend(files, ws[..k], [ws[k]]);
  }

  /** Whether one of these many attempts fails. */
  predicate Breaks(fails: Oracle, at: nat, n: nat)
  {
    Done(fails, at, n) < n
  }

  /** A plan is carried out by doing its first part and then, if no write failed, the rest. */
  lemma OnePartMore(files: Files, fails: Oracle, at: nat, ws: seq<Write>, more: seq<Write>)
    ensures var after, next := ApplyWrites(files, Stage(fails, at, ws)), After(fails, at, |ws|);
            if Breaks(fails, at, |ws|) then
              ApplyWrites(files, Stage(fails, at, ws + more)) == after && Breaks(fails, at, |ws + more|)
            else
              && ApplyWrites(files, Stage(fails, at, ws + more)) == ApplyWrites(after, Stage(fails, next, more))
              && (Breaks(fails, at, |ws + more|) <==> Breaks(fails, next, |more|))
  {
    hide Done, ApplyWrites, Stage;
    StageAppend(fails, at, ws, more);
    StageIsPrefix(fails, at, ws);
    ApplyAppend(files, ws, Stage(fails, at + |ws|, more));
  }

  lemma NothingToWrite(files: Files, fails: Oracle, at: nat)
    ensures ApplyWrites(files, Stage(fails, at, [])) == files && !Breaks(fails, at, 0)
  {
  }

  // -------------------------------------------------------------- provisioning

  /** The nr_hugepages files; opening or writing any of them may fail and then changes nothing. */
  class Sysfs {
    const fails: Oracle
    var attempts: nat
    var files: Files

    constructor (fails: Oracle, files: Files)
      ensures this.fails == fails && attempts == 0 && this.files == files
    {
      this.fails, attempts, this.files := fails, 0, files;
    }

    /** provisionOnNode. */
    method ProvisionOnNode(node: int, count: int, size: string) returns (r: Outcome)
      modifies this
      ensures r == if NormalSize(size).None? then UnsupportedSize else if fails(old(attempts)) then WriteFailed else Ok
      ensures attempts == old(attempts) + if NormalSize(size).None? then 0 else 1
      ensures files == if r.Ok? then old(files)[File(node, NormalSize(size).value) := count] else old(files)
    {
      var hpSize := NormalSize(size);
      if hpSize.None? {
        return UnsupportedSize;
      }
      var failed := fails(attempts);
      attempts := attempts + 1;
      if failed {
        return WriteFailed;
      }
      files := files[File(node, hpSize.value) := count];
      return Ok;
    }

    /** The writes `ws` of a group, in order, up to the first that fails. */
    twostate predicate Wrote(g: Group, ws: seq<Write>, r: Outcome)
      reads this
    {
      if NormalSize(g.size).None? then r == UnsupportedSize && files == old(files) && attempts == old(attempts)
      else
        && files == ApplyWrites(old(files), Stage(fails, old(attempts), ws))
        && attempts == After(fails, old(attempts), |ws|)
        && r == if Breaks(fails, old(attempts), |ws|) then WriteFailed else Ok
    }

    /** No zones: the division panics before anything is written. */
    twostate predicate Panicked(r: Outcome)
      reads this
    {
      r == Panic && files == old(files) && attempts == old(attempts)
    }

    /** provisionOnMultiNode, for any number of zones. */
    method ProvisionOnMultiNode(zones: int, g: Group) returns (r: Outcome)
      modifies this
      ensures if zones == 0 then Panicked(r) else Wrote(g, GroupShares(zones, g), r)
    {
      if zones == 0 {
        return Panic;
      }
      hide ApplyWrites, NormalSize, Quotient, Remainder, Done, GroupShares;
      var extra := Remainder(g.count, zones);
      var perNode := Quotient(g.count, zones);
      r := ProvisionOnNode(0, perNode + extra, g.size);
      if r.UnsupportedSize? {
        return;
      }
      ghost var ws, at, n := GroupShares(zones, g), old(attempts), Nodes(zones);
      SharesInOrder(zones, g);
      NoWrites(old(files), ws[..0]);
      if !r.Ok? {
        DoneIs(fails, at, n, 0);
        return;
      }
      ApplySnoc(old(files), ws, 0);
      var numaNode := 1;
      while numaNode < zones
        invariant 1 <= numaNode <= n
        invariant r.Ok? && attempts == at + numaNode
        invariant forall i :: at <= i < at + numaNode ==> !fails(i)
        invariant files == ApplyWrites(old(files), ws[..numaNode])
      {
        r := ProvisionOnNode(numaNode, perNode, g.size);
        if !r.Ok? {
          DoneIs(fails, at, n, numaNode);
          return;
        }
        ApplySnoc(old(files), ws, numaNode);
        numaNode := numaNode + 1;
      }
      DoneIs(fails, at, n, n);
    }

    /** One turn of the loop of RuntimeHugepages. */
    method ProvisionGroup(zones: int, g: Group) returns (r: Outcome)
      modifies this
      ensures if zones == 0 then Panicked(r) else Wrote(g, GroupWrites(zones, g), r)
    {
      if zones == 1 {
        r := ProvisionOnNode(PickNode(g), g.count, g.size);
        if NormalSize(g.size).Some? {
          ApplySnoc(old(files), GroupWrites(zones, g), 0);
        }
      } else {
        r := ProvisionOnMultiNode(zones, g);
      }
    }

    /**
     * RuntimeHugepages: the plan is written up to the first write that fails. The result tells a
     * failed write from a size that is not supported, and that from the division by zero that no
     * zones at all lead to. A run without error settles every file and conserves the pages.
     */
    method RuntimeHugepages(groups: seq<Group>, zones: int) returns (r: Outcome)
      modifies this
      ensures files == ApplyWrites(old(files), Stage(fails, old(attempts), Plan(zones, groups)))
      ensures r == if zones == 0 && groups != [] then Panic
                   else if Breaks(fails, old(attempts), |Plan(zones, groups)|) then WriteFailed
                   else if AllSupported(groups) then Ok
                   else UnsupportedSize
      ensures r.Ok? ==> Settled(old(files), files, zones, groups)
      ensures r.Ok? && zones >= 2 ==> Conserved(files, zones, groups)
    {
      r := Ok;
      ghost var start, at, plan := files, attempts, Plan(zones, groups);
      ghost var goal := ApplyWrites(files, Stage(fails, attempts, plan));
      ghost var breaks := Breaks(fails, attempts, |plan|);
      assert groups[0..] == groups;
      for i := 0 to |groups|
        invariant r.Ok?
        invariant i > 0 ==> zones != 0
        invariant goal == ApplyWrites(files, Stage(fails, attempts, Plan(zones, groups[i..])))
        invariant breaks <==> Breaks(fails, attempts, |Plan(zones, groups[i..])|)
        invariant forall j :: 0 <= j < i ==> NormalSize(groups[j].size).Some?
      {
        if zones != 0 {
          PlanFrom(zones, groups, i);
          if NormalSize(groups[i].size).Some? {
            ghost var ws := GroupWrites(zones, groups[i]);
            OnePartMore(files, fails, attempts, ws, Plan(zones, groups[i + 1..]));
          }
        }
        NothingToWrite(files, fails, attempts);
        hide ApplyWrites, NormalSize, GroupWrites, Done, Stage, After, Breaks;
        r := ProvisionGroup(zones, groups[i]);
        if !r.Ok? {
          return;
        }
      }
      NothingToWrite(files, fails, attempts);
      hide ApplyWrites, Stage, Plan, Settled, Conserved, Breaks, NormalSize;
      if AllSupported(groups) && !breaks {
        CompleteRun(start, fails, at, zones, groups);
      }
    }
  }

  /** Every group asks for a size that there is. */
  predicate AllSupported(groups: seq<Group>)
  {
    forall i :: 0 <= i < |groups| ==> NormalSize(groups[i].size).Some?
  }

  // ------------------------------------------------------------ conservation

  /** The last group, in configuration order, whose pages have this size. */
  function LastOfSize(groups: seq<Group>, size: string): Option<Group>
  {
    if groups == [] then None
    else
      var later := LastOfSize(groups[1..], size);
      if later.Some? then later
      else if NormalSize(groups[0].size) == Some(size) then Some(groups[0])
      else None
  }

  /** Spreading a group sets every node of its size and nothing else. */
  lemma {:induction false} SpreadSets(files: Files, size: string, count: int, zones: int, upTo: nat, f: File)
    requires zones != 0
    ensures var after := ApplyWrites(files, SpreadWrites(size, count, zones, upTo));
            if f.size == size && 0 <= f.node < upTo then f in after && after[f] == Share(count, zones, f.node)
            else (f in after <==> f in files) && (f in files ==> after[f] == files[f])
  {
    hide Share, ApplyWrites;
    var ws := SpreadWrites(size, count, zones, upTo);
    if upTo == 0 {
      assert ApplyWrites(files, ws) == files by { NoWrites(files, ws); }
    } else {
      var before := SpreadWrites(size, count, zones, upTo - 1);
      assert ws[..upTo - 1] == before && ws[..upTo] == ws;
      SpreadSets(files, size, count, zones, upTo - 1, f);
      ApplySnoc(files, ws, upTo - 1);
    }
  }

  lemma NoWrites(files: Files, ws: seq<Write>)
    requires ws == []
    ensures ApplyWrites(files, ws) == files
  {
  }

  /**
   * The last group of a size wins: unless there is a single zone, each node written to holds
   * its share of that group after the whole plan, and files of other sizes or other nodes are
   * as they were.
   */
  lemma {:induction false} LastGroupWins(files: Files, zones: int, groups: seq<Group>, f: File)
    requires zones != 0 && zones != 1
    requires AllSupported(groups)
    ensures var after := ApplyWrites(files, Plan(zones, groups));
            var last := LastOfSize(groups, f.size);
            if last.Some? && 0 <= f.node < Nodes(zones) then f in after && after[f] == Share(last.value.count, zones, f.node)
            else (f in after <==> f in files) && (f in files ==> after[f] == files[f])
    decreases |groups|
  {
    hide Share, NormalSize, ApplyWrites;
    if groups == [] {
      NoWrites(files, Plan(zones, groups));
    } else {
      var g := groups[0];
      var size := NormalSize(g.size).value;
      var ws := GroupWrites(zones, g);
      var middle := ApplyWrites(files, ws);
      SpreadSets(files, size, g.count, zones, Nodes(zones), f);
      ApplyAppend(files, ws, Plan(zones, groups[1..]));
      LastGroupWins(middle, zones, groups[1..], f);
    }
  }

  /** Pages of a size on the first `n` nodes. */
  function TotalPages(files: Files, size: string, n: nat): int
  {
    if n == 0 then 0
    else TotalPages(files, size, n - 1) + if File(n - 1, size) in files then files[File(n - 1, size)] else 0
  }

  lemma {:induction false} SharesAddUp(files: Files, size: string, count: int, zones: int, n: nat)
    requires zones != 0 && n >= 1
    requires forall i :: 0 <= i < n ==> File(i, size) in files && files[File(i, size)] == Share(count, zones, i)
    ensures TotalPages(files, size, n) == n * Quotient(count, zones) + Remainder(count, zones)
  {
    hide Quotient, Remainder;
    if n == 1 {
      assert TotalPages(files, size, 0) == 0;
      assert files[File(0, size)] == Share(count, zones, 0);
    } else {
      SharesAddUp(files, size, count, zones, n - 1);
      assert files[File(n - 1, size)] == Share(count, zones, n - 1);
      assert n * Quotient(count, zones) == (n - 1) * Quotient(count, zones) + Quotient(count, zones);
    }
  }

  /**
   * Conservation: after the whole plan, on two or more zones, the nodes of a size that some
   * group names hold together exactly the last such group's count, for any count; nodes 1 and
   * up hold the same, and node 0 holds more by the remainder.
   */
  lemma PagesAreConserved(files: Files, zones: nat, groups: seq<Group>, size: string)
    requires zones >= 2
    requires AllSupported(groups)
    requires LastOfSize(groups, size).Some?
    ensures var after, count := ApplyWrites(files, Plan(zones, groups)), LastOfSize(groups, size).value.count;
            && TotalPages(after, size, zones) == count
            && (forall i :: 0 <= i < zones ==> File(i, size) in after)
            && (forall i :: 1 <= i < zones ==> after[File(i, size)] == Quotient(count, zones))
            && after[File(0, size)] == Quotient(count, zones) + Remainder(count, zones)
  {
    hide Quotient, Remainder, NormalSize, ApplyWrites, Plan, LastOfSize;
    var after, count := ApplyWrites(files, Plan(zones, groups)), LastOfSize(groups, size).value.count;
    forall i | 0 <= i < zones ensures File(i, size) in after && after[File(i, size)] == Share(count, zones, i) {
      LastGroupWins(files, zones, groups, File(i, size));
    }
    SharesAddUp(after, size, count, zones, zones);
    QuotientRemainder(count, zones);
  }

  /**
   * The code also accepts a negative number of zones, and then writes to node 0 only. What it
   * writes is the count exactly if that is smaller in size than the number of zones.
   */
  lemma NegativeZonesConserveIff(files: Files, zones: int, groups: seq<Group>, size: string)
    requires zones < 0
    requires AllSupported(groups)
    requires LastOfSize(groups, size).Some?
    ensures var after, count := ApplyWrites(files, Plan(zones, groups)), LastOfSize(groups, size).value.count;
            TotalPages(after, size, 1) == count <==> Abs(count) < -zones
  {
    hide NormalSize, ApplyWrites, Plan, LastOfSize;
    var after, count := ApplyWrites(files, Plan(zones, groups)), LastOfSize(groups, size).value.count;
    LastGroupWins(files, zones, groups, File(0, size));
    SharesAddUp(after, size, count, zones, 1);
    QuotientRemainder(count, zones);
    SmallQuotient(count, zones);
    var q := Quotient(count, zones);
    assert zones * q - q == (zones - 1) * q;
    assert q != 0 ==> (zones - 1) * q != 0;
  }

  /** Five pages on minus two zones: node 0 is told to hold minus one page. */
  lemma NegativeZonesLosePages()
    ensures var after := ApplyWrites(map[], Plan(-2, [Group("2M", 5, None)]));
            File(0, "2048kB") in after && after[File(0, "2048kB")] == -1 && TotalPages(after, "2048kB", 1) != 5
  {
    var groups := [Group("2M", 5, None)];
    assert groups[1..] == [] && LastOfSize(groups[1..], "2048kB").None?;
    assert LastOfSize(groups, "2048kB") == Some(groups[0]);
    LastGroupWins(map[], -2, groups, File(0, "2048kB"));
    NegativeZonesConserveIff(map[], -2, groups, "2048kB");
  }

  lemma SmallQuotient(a: int, b: int)
    requires b != 0
    ensures Quotient(a, b) == 0 <==> Abs(a) < Abs(b)
  {
    var q, r, n := Abs(a) / Abs(b), Abs(a) % Abs(b), Abs(b);
    assert n * q + r == Abs(a);
    if q >= 1 {
      assert n * q == n + n * (q - 1);
    }
  }

  // ------------------------------------------------------------ single zone

  /** The sizes there are, and what sysfs calls them. */
  lemma NormalSizeIff(size: string, name: string)
    ensures NormalSize(size) == Some(name)
            <==> (name == "1048576kB" && size in {"1G", "1Gi", "1g"}) || (name == "2048kB" && size in {"2M", "2Mi", "2m"})
  {
  }

  /** One group on one zone: its node's file gets the count, and that of node 0 if it names none. */
  lemma SingleGroup(files: Files, g: Group, size: string)
    requires NormalSize(g.size) == Some(size)
    ensures ApplyWrites(files, Plan(1, [g])) == files[File(if g.node.Some? then g.node.value else 0, size) := g.count]
  {
    hide NormalSize;
    assert [g][1..] == [];
    assert Plan(1, [g]) == GroupWrites(1, g);
    ApplySnoc(files, GroupWrites(1, g), 0);
    NoWrites(files, GroupWrites(1, g)[..0]);
    assert GroupWrites(1, g)[..1] == GroupWrites(1, g);
  }

  /** The last group with this size and this node. */
  function LastOnNode(groups: seq<Group>, f: File): Option<Group>
  {
    if groups == [] then None
    else
      var later := LastOnNode(groups[1..], f);
      if later.Some? then later
      else if NormalSize(groups[0].size) == Some(f.size) && PickNode(groups[0]) == f.node then Some(groups[0])
      else None
  }

  /** On a single-zone machine the whole count goes to the node that the last group names. */
  lemma {:induction false} SingleZoneLastGroupWins(files: Files, groups: seq<Group>, f: File)
    requires AllSupported(groups)
    ensures var after := ApplyWrites(files, Plan(1, groups));
            var last := LastOnNode(groups, f);
            if last.Some? then f in after && after[f] == last.value.count
            else (f in after <==> f in files) && (f in files ==> after[f] == files[f])
    decreases |groups|
  {
    hide NormalSize, ApplyWrites;
    if groups == [] {
      NoWrites(files, Plan(1, groups));
    } else {
      var g := groups[0];
      var ws := GroupWrites(1, g);
      ApplySnoc(files, ws, 0);
      NoWrites(files, ws[..0]);
      assert ws[..1] == ws;
      ApplyAppend(files, ws, Plan(1, groups[1..]));
      SingleZoneLastGroupWins(ApplyWrites(files, ws), groups[1..], f);
    }
  }

  // ----------------------------------------------------------- complete runs

  /** What a file should hold in the end, if the groups say anything about it. */
  function Wanted(zones: int, groups: seq<Group>, f: File): Option<int>
  {
    if zones == 0 then None
    else if zones == 1 then
      var last := LastOnNode(groups, f);
      if last.Some? then Some(last.value.count) else None
    else
      var last := LastOfSize(groups, f.size);
      if last.Some? && 0 <= f.node < Nodes(zones) then Some(Share(last.value.count, zones, f.node)) else None
  }

  /** Every file holds what it should, and files that the groups do not concern are untouched. */
  ghost predicate Settled(before: Files, after: Files, zones: int, groups: seq<Group>)
  {
    forall f :: match Wanted(zones, groups, f)
                case Some(count) => f in after && after[f] == count
                case None => (f in after <==> f in before) && (f in before ==> after[f] == before[f])
  }

  /** For every size that is asked for, the nodes hold together what its last group asks for. */
  ghost predicate Conserved(files: Files, zones: nat, groups: seq<Group>)
  {
    forall size :: LastOfSize(groups, size).Some? ==> TotalPages(files, size, zones) == LastOfSize(groups, size).value.count
  }

  lemma CompleteRun(files: Files, fails: Oracle, at: nat, zones: int, groups: seq<Group>)
    requires AllSupported(groups) && (zones == 0 ==> groups == [])
    requires !Breaks(fails, at, |Plan(zones, groups)|)
    ensures var after := ApplyWrites(files, Stage(fails, at, Plan(zones, groups)));
            Settled(files, after, zones, groups) && (zones >= 2 ==> Conserved(after, zones, groups))
  {
    StageIsPrefix(fails, at, Plan(zones, groups));
    hide NormalSize, ApplyWrites, Stage, Done, Share, LastOfSize, LastOnNode, TotalPages;
    var after := ApplyWrites(files, Plan(zones, groups));
    if zones == 0 {
      NoWrites(files, Plan(zones, groups));
    } else if zones == 1 {
      forall f { SingleZoneLastGroupWins(files, groups, f); }
    } else {
      forall f { LastGroupWins(files, zones, groups, f); }
    }
    if zones >= 2 {
      forall size | LastOfSize(groups, size).Some? { PagesAreConserved(files, zones, groups, size); }
    }
  }
}
