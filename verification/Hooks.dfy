/** Hook chains: which scripts run, in which order, and what they make of the domain XML. */
module Hooks {
  import opened Bytes
  import opened Sorting

  // -------------------------------------------------------------- one hook

  /** How a script ended: failure, a kill after three seconds, or success with some stdout. */
  datatype Exit = Failure | Success(stdout: Str)

  /** What the script at a path does with an XML document on stdin. */
  type Scripts = (Str, Str) -> Exit

  /** Bytes taken by the white-space rune at the front of `s`; 0 if there is none. */
  function SpaceWidth(s: Str): (w: nat)
    ensures w <= |s|
  {
    if |s| >= 1 && (9 <= s[0] <= 13 || s[0] == 32) then 1
    else if |s| >= 2 && s[0] == 0xC2 && (s[1] == 0x85 || s[1] == 0xA0) then 2
    else if |s| >= 3 && ((s[0] == 0xE1 && s[1] == 0x9A && s[2] == 0x80)
                         || (s[0] == 0xE2 && s[1] == 0x80 && (0x80 <= s[2] <= 0x8A || s[2] == 0xA8 || s[2] == 0xA9 || s[2] == 0xAF))
                         || (s[0] == 0xE2 && s[1] == 0x81 && s[2] == 0x9F)
                         || (s[0] == 0xE3 && s[1] == 0x80 && s[2] == 0x80)) then 3
    else 0
  }

  /** strings.TrimSpace(s) == "". */
  predicate Blank(s: Str)
    decreases |s|
  {
    s == [] || (SpaceWidth(s) > 0 && Blank(s[SpaceWidth(s)..]))
  }

  /** The code points that unicode.IsSpace accepts. */
  predicate IsSpace(rune: nat)
  {
    || 9 <= rune <= 13
    || rune in {0x20, 0x85, 0xA0, 0x1680, 0x2028, 0x2029, 0x202F, 0x205F, 0x3000}
    || 0x2000 <= rune <= 0x200A
  }

  /** UTF-8 (section 3 of RFC 3629) for code points of up to 16 bits. */
  function Utf8(rune: nat): Str
    requires rune < 0x10000
  {
    if rune < 0x80 then [rune]
    else if rune < 0x800 then [0xC0 + rune / 64, 0x80 + rune % 64]
    else [0xE0 + rune / 4096, 0x80 + rune / 64 % 64, 0x80 + rune % 64]
  }

  /** White space at the front of a text is the encoding of a white-space code point. */
  lemma SpaceWidthIff(s: Str)
    ensures SpaceWidth(s) > 0 <==> exists rune :: 0 <= rune < 0x10000 && IsSpace(rune) && Utf8(rune) <= s
  {
    hide SpaceWidth, IsSpace, Utf8;
    if SpaceWidth(s) > 0 {
      var rune := SpaceRune(s);
    }
    forall rune: nat | rune < 0x10000 && IsSpace(rune) && Utf8(rune) <= s ensures SpaceWidth(s) > 0 {
      SpaceWidthIs(s, rune);
      Utf8NotEmpty(rune);
    }
  }

  lemma Utf8NotEmpty(rune: nat)
    requires rune < 0x10000
    ensures Utf8(rune) != []
  {
  }

  lemma SpaceRune(s: Str) returns (rune: nat)
    requires SpaceWidth(s) > 0
    ensures rune < 0x10000 && IsSpace(rune) && Utf8(rune) <= s
  {
    if SpaceWidth(s) == 1 {
      rune := s[0];
    } else if SpaceWidth(s) == 2 {
      rune := s[1];
      assert Utf8(rune) == s[..2];
    } else {
      rune := (s[0] as int - 0xE0) * 4096 + (s[1] as int - 0x80) * 64 + (s[2] as int - 0x80);
      assert Utf8(rune) == s[..3];
    }
  }

  lemma SpaceWidthIs(s: Str, rune: nat)
    requires rune < 0x10000 && IsSpace(rune) && Utf8(rune) <= s
    ensures SpaceWidth(s) == |Utf8(rune)|
  {
  }

  /** For ASCII texts: blank means tabs, line ends, feeds and spaces only. */
  lemma {:induction false} BlankAscii(s: Str)
    requires forall i :: 0 <= i < |s| ==> s[i] < 128
    ensures Blank(s) <==> forall i :: 0 <= i < |s| ==> 9 <= s[i] <= 13 || s[i] == 32
  {
    if s != [] {
      BlankAscii(s[1..]);
      assert forall i :: 0 < i < |s| ==> s[i] == s[1..][i - 1];
    }
  }

  /** runHook: None is its error; blank output means that the script changed nothing. */
  function RunHook(scripts: Scripts, path: Str, xml: Str): Option<Str>
  {
    match scripts(path, xml)
    case Failure => None
    case Success(out) => if Blank(out) then Some(xml) else Some(out)
  }

  /** The XML that the chain goes on with after one hook. */
  function Effect(scripts: Scripts, path: Str, xml: Str): Str
  {
    match RunHook(scripts, path, xml)
    case None => xml
    case Some(out) => out
  }

  /** The left fold of the hooks' effects. */
  function Fold(scripts: Scripts, hooks: seq<Str>, xml: Str): Str
  {
    if hooks == [] then xml else Fold(scripts, hooks[1..], Effect(scripts, hooks[0], xml))
  }

  lemma {:induction false} FoldAppend(scripts: Scripts, a: seq<Str>, b: seq<Str>, xml: Str)
    ensures Fold(scripts, a + b, xml) == Fold(scripts, b, Fold(scripts, a, xml))
  {
    if a == [] {
      assert a + b == b;
    } else {
      assert (a + b)[0] == a[0] && (a + b)[1..] == a[1..] + b;
      FoldAppend(scripts, a[1..], b, Effect(scripts, a[0], xml));
    }
  }

  lemma FoldSnoc(scripts: Scripts, hooks: seq<Str>, i: nat, xml: Str)
    requires i < |hooks|
    ensures Fold(scripts, hooks[..i + 1], xml) == Effect(scripts, hooks[i], Fold(scripts, hooks[..i], xml))
  {
    assert hooks[..i + 1] == hooks[..i] + [hooks[i]];
    FoldAppend(scripts, hooks[..i], [hooks[i]], xml);
  }

  /** The script at this path contributes nothing when it is given `xml`. */
  predicate Idle(scripts: Scripts, path: Str, xml: Str)
  {
    scripts(path, xml).Failure? || Blank(scripts(path, xml).stdout)
  }

  /** The hooks that had a say in the result, in order. */
  function Active(scripts: Scripts, hooks: seq<Str>, xml: Str): seq<Str>
  {
    if hooks == [] then []
    else
      var rest := Active(scripts, hooks[1..], Effect(scripts, hooks[0], xml));
      if Idle(scripts, hooks[0], xml) then rest else [hooks[0]] + rest
  }

  /** A failing or silent hook can be deleted wherever it stands in the list. */
  lemma IdleHookCanBeDeleted(scripts: Scripts, a: seq<Str>, path: Str, b: seq<Str>, xml: Str)
    requires Idle(scripts, path, Fold(scripts, a, xml))
    ensures Fold(scripts, a + [path] + b, xml) == Fold(scripts, a + b, xml)
  {
    FoldAppend(scripts, a + [path], b, xml);
    FoldAppend(scripts, a, [path], xml);
    FoldAppend(scripts, a, b, xml);
  }

  /** Deleting all of them at once leaves hooks that each produced non-blank output. */
  lemma {:induction false} OnlyActiveHooksMatter(scripts: Scripts, hooks: seq<Str>, xml: Str)
    ensures Fold(scripts, Active(scripts, hooks, xml), xml) == Fold(scripts, hooks, xml)
    ensures Active(scripts, Active(scripts, hooks, xml), xml) == Active(scripts, hooks, xml)
  {
    if hooks != [] {
      OnlyActiveHooksMatter(scripts, hooks[1..], Effect(scripts, hooks[0], xml));
    }
  }

  /** Non-blank XML stays non-blank at every stage of the chain. */
  lemma {:induction false} FoldNeverBlanks(scripts: Scripts, hooks: seq<Str>, xml: Str, k: nat)
    requires !Blank(xml) && k <= |hooks|
    ensures !Blank(Fold(scripts, hooks[..k], xml))
  {
    if k > 0 {
      assert hooks[..k][0] == hooks[0] && hooks[..k][1..] == hooks[1..][..k - 1];
      FoldNeverBlanks(scripts, hooks[1..], Effect(scripts, hooks[0], xml), k - 1);
    }
  }

  // ------------------------------------------------------------ directories

  /** What os.Stat says about an entry once links are followed. */
  datatype Stat = Stat(regular: bool, executable: bool)

  datatype Entry = Entry(name: Str, isDir: bool, stat: Option<Stat>)

  predicate Eligible(e: Entry)
  {
    !e.isDir && e.stat.Some? && e.stat.value.regular && e.stat.value.executable
  }

  function EligibleNames(entries: seq<Entry>): seq<Str>
  {
    if entries == [] then []
    else
      var front := EligibleNames(entries[..|entries| - 1]);
      var last := entries[|entries| - 1];
      if Eligible(last) then front + [last.name] else front
  }

  /**
   * The surroundings of one Run: the answer of os.ReadDir (None is its error), the prefix
   * that filepath.Join puts before a file name of the hook directory, and the scripts.
   */
  datatype World = World(listing: Option<seq<Entry>>, prefix: Str, scripts: Scripts)

  /** listHookDir: filter the entries, then sort the full paths. */
  method ListHookDir(w: World) returns (r: Option<seq<Str>>)
    ensures r.None? <==> w.listing.None?
    ensures r.Some? ==> r.value == Prefixed(w.prefix, Sort(EligibleNames(w.listing.value)))
    ensures r.Some? ==> Ascending(r.value)
    ensures r.Some? ==> multiset(r.value) == multiset(Prefixed(w.prefix, EligibleNames(w.listing.value)))
    ensures r.Some? ==> forall path :: multiset(r.value)[path] == Passing(w.listing.value, w.prefix, path)
  {
    if w.listing.None? {
      return None;
    }
    var entries := w.listing.value;
    var hooks: seq<Str> := [];
    for i := 0 to |entries|
      invariant hooks == Prefixed(w.prefix, EligibleNames(entries[..i]))
    {
      var entry := entries[i];
      assert entries[..i + 1][..i] == entries[..i];
      if entry.isDir {
        continue;
      }
      var fullPath := w.prefix + entry.name;
      if entry.stat.None? {
        continue;
      }
      if !entry.stat.value.regular {
        continue;
      }
      if !entry.stat.value.executable {
        continue;
      }
      hooks := hooks + [fullPath];
    }
    assert entries[..|entries|] == entries;
    SortPrefixed(w.prefix, EligibleNames(entries));
    SortCorrect(hooks);
    forall path ensures multiset(hooks)[path] == Passing(entries, w.prefix, path) {
      EligibleCount(entries, w.prefix, path);
    }
    return Some(Sort(hooks));
  }

  // ------------------------------------------------------------- the chain

  /** A configured chain; an empty path means that the flag was not given. */
  datatype HookChain = HookChain(hookPath: Str, hookDirPath: Str)

  /** The hooks to run: the single one first, then those of the directory by name. */
  function HookList(hc: HookChain, w: World): Option<seq<Str>>
  {
    var single := if hc.hookPath != [] then [hc.hookPath] else [];
    if hc.hookDirPath == [] then Some(single)
    else
      match w.listing
      case None => None
      case Some(entries) => Some(single + Prefixed(w.prefix, Sort(EligibleNames(entries))))
  }

  /** The result of a chain; None is the listing error. */
  function ChainResult(hc: HookChain, w: World, xml: Str): Option<Str>
  {
    match HookList(hc, w)
    case None => None
    case Some(hooks) => Some(Fold(w.scripts, hooks, xml))
  }

  /** Without a hook directory the chain is its single hook. */
  lemma SingleHookChain(path: Str, w: World, xml: Str)
    requires path != []
    ensures ChainResult(HookChain(path, []), w, xml) == Some(Effect(w.scripts, path, xml))
  {
    hide Effect;
    assert HookList(HookChain(path, []), w) == Some([path]);
    FoldSnoc(w.scripts, [path], 0, xml);
    assert [path][..0] == [] && [path][..1] == [path];
  }

  /** How many entries of a listing have this full path and are executable regular files. */
  function Passing(entries: seq<Entry>, prefix: Str, path: Str): nat
  {
    if entries == [] then 0
    else
      var last := entries[|entries| - 1];
      Passing(entries[..|entries| - 1], prefix, path)
      + if prefix + last.name == path && !last.isDir && last.stat.Some? && last.stat.value.regular && last.stat.value.executable
        then 1 else 0
  }

  lemma {:induction false} EligibleCount(entries: seq<Entry>, prefix: Str, path: Str)
    ensures multiset(Prefixed(prefix, EligibleNames(entries)))[path] == Passing(entries, prefix, path)
  {
    if entries != [] {
      var front, last := entries[..|entries| - 1], entries[|entries| - 1];
      EligibleCount(front, prefix, path);
      if Eligible(last) {
        assert Prefixed(prefix, EligibleNames(entries)) == Prefixed(prefix, EligibleNames(front)) + [prefix + last.name];
      }
    }
  }

  /** The paths are those of the executable regular files in the directory, in alphabetical order. */
  ghost predicate FromDirectory(hc: HookChain, w: World, paths: seq<Str>)
  {
    if hc.hookDirPath == [] then paths == []
    else
      && w.listing.Some?
      && Ascending(paths)
      && forall path :: multiset(paths)[path] == Passing(w.listing.value, w.prefix, path)
  }

  function PathsOf(ran: seq<(Str, Str)>): seq<Str>
  {
    seq(|ran|, i requires 0 <= i < |ran| => ran[i].0)
  }

  /** Each script was given what the one before it left: its output, unless it failed or that was blank. */
  ghost predicate HandedOn(scripts: Scripts, ran: seq<(Str, Str)>, xmlInput: Str, output: Str)
  {
    && (if ran == [] then output == xmlInput else ran[0].1 == xmlInput)
    && forall i :: 0 <= i < |ran| ==> HandedOnAt(scripts, ran, output, i)
  }

  ghost predicate HandedOnAt(scripts: Scripts, ran: seq<(Str, Str)>, output: Str, i: nat)
    requires i < |ran|
  {
    var exit := scripts(ran[i].0, ran[i].1);
    (if i + 1 < |ran| then ran[i + 1].1 else output)
    == if exit.Success? && !Blank(exit.stdout) then exit.stdout else ran[i].1
  }

  lemma DirectoryPart(hc: HookChain, w: World)
    requires HookList(hc, w).Some?
    ensures var hooks := HookList(hc, w).value;
            if hc.hookPath == [] then FromDirectory(hc, w, hooks)
            else hooks != [] && hooks[0] == hc.hookPath && FromDirectory(hc, w, hooks[1..])
  {
    hide Sort, EligibleNames, Passing;
    if hc.hookDirPath != [] {
      var names := EligibleNames(w.listing.value);
      var paths := Prefixed(w.prefix, Sort(names));
      SortPrefixed(w.prefix, names);
      SortCorrect(Prefixed(w.prefix, names));
      forall path ensures multiset(paths)[path] == Passing(w.listing.value, w.prefix, path) {
        EligibleCount(w.listing.value, w.prefix, path);
      }
      assert [] + paths == paths;
      assert ([hc.hookPath] + paths)[1..] == paths;
    }
  }

  lemma StartedPaths(scripts: Scripts, hooks: seq<Str>, xml: Str, ran: seq<(Str, Str)>)
    requires |ran| == |hooks|
    requires forall i :: 0 <= i < |ran| ==> ran[i] == (hooks[i], Fold(scripts, hooks[..i], xml))
    ensures PathsOf(ran) == hooks
    ensures ran != [] ==> PathsOf(ran[1..]) == hooks[1..] && ran[0] == (hooks[0], xml)
  {
    hide Fold;
    FoldOfNothing(scripts, xml);
    assert hooks[..0] == [];
  }

  /** HookChain.Run; `ran` records the scripts started and the XML each was given. */
  method Run(hc: HookChain, w: World, xmlInput: Str) returns (output: Str, ok: bool, ran: seq<(Str, Str)>)
    ensures ok <==> hc.hookDirPath == [] || w.listing.Some?
    ensures ok && hc.hookPath != [] ==>
              ran != [] && ran[0] == (hc.hookPath, xmlInput) && FromDirectory(hc, w, PathsOf(ran[1..]))
    ensures ok && hc.hookPath == [] ==> FromDirectory(hc, w, PathsOf(ran))
    ensures ok ==> HandedOn(w.scripts, ran, xmlInput, output)
    ensures ok <==> HookList(hc, w).Some?
    ensures ok ==> output == Fold(w.scripts, HookList(hc, w).value, xmlInput)
    ensures ok ==> |ran| == |HookList(hc, w).value|
    ensures ok ==> forall i :: 0 <= i < |ran| ==>
                     ran[i] == (HookList(hc, w).value[i], Fold(w.scripts, HookList(hc, w).value[..i], xmlInput))
    ensures !ok ==> output == xmlInput && ran == []
  {
    hide Sort, EligibleNames, Passing, Ascending, Blank;
    var currentXML := xmlInput;
    var hooks: seq<Str> := [];
    ran := [];
    if hc.hookPath != [] {
      hooks := hooks + [hc.hookPath];
      assert hooks == [hc.hookPath];
    }
    if hc.hookDirPath != [] {
      var hooksFromDir := ListHookDir(w);
      if hooksFromDir.None? {
        return currentXML, false, ran;
      }
      hooks := hooks + hooksFromDir.value;
    }
    assert HookList(hc, w) == Some(hooks);
    DirectoryPart(hc, w);
    hide FromDirectory, HandedOn, Fold, HookList, PathsOf;
    output, ran := RunHooks(w.scripts, hooks, currentXML);
    ok := true;
    StartedPaths(w.scripts, hooks, xmlInput, ran);
  }

  /** The loop of Run over the hooks it has found. */
  method RunHooks(scripts: Scripts, hooks: seq<Str>, xmlInput: Str) returns (currentXML: Str, ran: seq<(Str, Str)>)
    ensures currentXML == Fold(scripts, hooks, xmlInput)
    ensures |ran| == |hooks|
    ensures forall i :: 0 <= i < |ran| ==> ran[i] == (hooks[i], Fold(scripts, hooks[..i], xmlInput))
    ensures HandedOn(scripts, ran, xmlInput, currentXML)
  {
    currentXML, ran := xmlInput, [];
    for i := 0 to |hooks|
      invariant currentXML == Fold(scripts, hooks[..i], xmlInput)
      invariant |ran| == i
      invariant forall j :: 0 <= j < i ==> ran[j] == (hooks[j], Fold(scripts, hooks[..j], xmlInput))
    {
      FoldSnoc(scripts, hooks, i, xmlInput);
      ran := ran + [(hooks[i], currentXML)];
      var out := RunHook(scripts, hooks[i], currentXML);
      if out.None? {
        continue;
      }
      currentXML := out.value;
    }
    assert hooks[..|hooks|] == hooks;
    FoldHandsOn(scripts, hooks, xmlInput, ran, currentXML);
  }

  lemma FoldOfNothing(scripts: Scripts, xml: Str)
    ensures Fold(scripts, [], xml) == xml
  {
  }

  lemma FoldHandsOn(scripts: Scripts, hooks: seq<Str>, xml: Str, ran: seq<(Str, Str)>, output: Str)
    requires output == Fold(scripts, hooks, xml) && |ran| == |hooks|
    requires forall i :: 0 <= i < |ran| ==> ran[i] == (hooks[i], Fold(scripts, hooks[..i], xml))
    ensures HandedOn(scripts, ran, xml, output)
  {
    hide Fold, Blank;
    FoldOfNothing(scripts, xml);
    assert hooks[..0] == [] && hooks[..|hooks|] == hooks;
    assert ran == [] ==> hooks == [];
    forall i | 0 <= i < |ran| ensures HandedOnAt(scripts, ran, output, i) {
      FoldSnoc(scripts, hooks, i, xml);
    }
  }

  /** os.ReadDir already sorts by name, and then the sort of listHookDir changes nothing. */
  lemma SortedListingNeedsNoSort(entries: seq<Entry>)
    requires Ascending(EligibleNames(entries))
    ensures Sort(EligibleNames(entries)) == EligibleNames(entries)
  {
    SortUnique(EligibleNames(entries), EligibleNames(entries));
  }
}
