/** Machine type names such as pc-i440fx-7.1 and their move to q35. */
module MachineType {
  import opened Bytes

  predicate Contains(s: string, sub: string)
  {
    sub <= s || (s != [] && Contains(s[1..], sub))
  }

  predicate AllDigits(s: string)
  {
    s != [] && forall i :: 0 <= i < |s| ==> '0' <= s[i] <= '9'
  }

  function IndexOf(s: string, c: char): (i: nat)
    ensures i <= |s|
    ensures i < |s| ==> s[i] == c
    ensures forall j :: 0 <= j < i ==> s[j] != c
  {
    if s == [] || s[0] == c then 0 else 1 + IndexOf(s[1..], c)
  }

  /** The whole of `s` matches \d+(\.\d+)+ . */
  predicate IsVersion(s: string)
    decreases |s|
  {
    var i := IndexOf(s, '.');
    && i < |s|
    && AllDigits(s[..i])
    && (AllDigits(s[i + 1..]) || IsVersion(s[i + 1..]))
  }

  /** re.search(r'(-(\d+(\.\d+)+))$', s): the first dash that starts a version up to the end. */
  function VersionSuffix(s: string): (r: Option<string>)
    ensures r.Some? ==> r.value != [] && r.value[0] == '-' && IsVersion(r.value[1..]) && |r.value| <= |s|
                        && s[|s| - |r.value|..] == r.value
  {
    if s == [] then None
    else if s[0] == '-' && IsVersion(s[1..]) then Some(s)
    else VersionSuffix(s[1..])
  }

  /** The name that ensure_machine_type picks for one that does not mention q35. */
  function NewMachine(current: string): string
  {
    match VersionSuffix(current)
    case Some(suffix) => "pc-q35" + suffix
    case None => "q35"
  }

  lemma {:induction false} ContainsAt(s: string, i: nat, sub: string)
    requires i <= |s| && sub <= s[i..]
    ensures Contains(s, sub)
  {
    if i > 0 {
      assert s[1..][i - 1..] == s[i..];
      ContainsAt(s[1..], i - 1, sub);
    }
  }

  /** Containing a text is having it at some position. */
  lemma {:induction false} ContainsIff(s: string, sub: string)
    ensures Contains(s, sub) <==> exists i :: 0 <= i <= |s| && sub <= s[i..]
  {
    if sub <= s {
      assert s[0..] == s;
    } else if s != [] {
      ContainsIff(s[1..], sub);
      forall i | 0 <= i <= |s[1..]| && sub <= s[1..][i..] ensures sub <= s[i + 1..] {
        assert s[1..][i..] == s[i + 1..];
      }
    }
    forall i | 0 <= i <= |s| && sub <= s[i..] ensures Contains(s, sub) { ContainsAt(s, i, sub); }
  }

  lemma NewMachineIsQ35(current: string)
    ensures Contains(NewMachine(current), "q35")
  {
    hide Contains, IsVersion, VersionSuffix;
    match VersionSuffix(current)
    case None => ContainsAt("q35", 0, "q35");
    case Some(v) =>
      assert ("pc-q35" + v)[3..] == "q35" + v;
      ContainsAt("pc-q35" + v, 3, "q35");
  }

  lemma {:induction false} SuffixAt(s: string, i: nat)
    requires i <= |s|
    requires forall j :: 0 <= j < i ==> s[j] != '-' || !IsVersion(s[j + 1..])
    ensures VersionSuffix(s) == VersionSuffix(s[i..])
  {
    hide IsVersion;
    if i == 0 {
      assert s[0..] == s;
    } else {
      assert s[1..][i - 1..] == s[i..];
      assert s[0] != '-' || !IsVersion(s[0 + 1..]);
      forall j | 0 <= j < i - 1 ensures s[1..][j] != '-' || !IsVersion(s[1..][j + 1..]) {
        assert s[1..][j + 1..] == s[(j + 1) + 1..];
      }
      SuffixAt(s[1..], i - 1);
    }
  }

  lemma {:induction false} VersionHasNoDash(s: string)
    requires IsVersion(s)
    ensures '-' !in s
    decreases |s|
  {
    var i := IndexOf(s, '.');
    var rest := s[i + 1..];
    if !AllDigits(rest) {
      VersionHasNoDash(rest);
    }
    assert s == s[..i] + ['.'] + rest;
  }

  /**
   * The suffix found is the version suffix: it is found exactly if the name ends in it, so
   * there is at most one, and None means that there is none.
   */
  lemma {:induction false} VersionSuffixIff(s: string, v: string)
    ensures VersionSuffix(s) == Some(v)
            <==> v != [] && v[0] == '-' && IsVersion(v[1..]) && |v| <= |s| && s[|s| - |v|..] == v
  {
    hide IsVersion;
    if v != [] && v[0] == '-' && IsVersion(v[1..]) && |v| <= |s| && s[|s| - |v|..] == v {
      var i := |s| - |v|;
      forall j | 0 <= j < i ensures s[j] != '-' || !IsVersion(s[j + 1..]) {
        assert s[j + 1..][i - (j + 1)] == s[i] == v[0];
        if IsVersion(s[j + 1..]) {
          VersionHasNoDash(s[j + 1..]);
        }
      }
      SuffixAt(s, i);
    }
  }

  lemma LetterIsNoVersion(s: string)
    requires s != [] && s[0] > '9'
    ensures !IsVersion(s)
  {
    var i := IndexOf(s, '.');
    if i < |s| {
      assert s[..i][0] == s[0];
    }
  }

  lemma SuffixOfQ35(v: string)
    requires v != [] && v[0] == '-' && IsVersion(v[1..])
    ensures VersionSuffix("pc-q35" + v) == Some(v)
  {
    hide IsVersion;
    var s := "pc-q35" + v;
    assert s[3..][0] == 'q';
    LetterIsNoVersion(s[3..]);
    forall j | 0 <= j < 6 ensures s[j] != '-' || !IsVersion(s[j + 1..]) {
      if j == 2 { assert s[j + 1..] == s[3..]; }
    }
    SuffixAt(s, 6);
    assert s[6..] == v;
  }

  /** A version suffix is carried over as it is, and none is invented. */
  lemma NewMachineKeepsVersion(current: string)
    ensures VersionSuffix(NewMachine(current)) == VersionSuffix(current)
  {
    hide IsVersion, VersionSuffix;
    match VersionSuffix(current)
    case None =>
      SuffixAt("q35", 3);
      NoSuffix();
    case Some(v) => SuffixOfQ35(v);
  }

  lemma NoSuffix()
    ensures VersionSuffix("q35"[3..]) == None
  {
  }

  function JoinDots(groups: seq<string>): string
  {
    if groups == [] then []
    else if |groups| == 1 then groups[0]
    else groups[0] + "." + JoinDots(groups[1..])
  }

  /** A version is two or more groups of digits with dots between them. */
  predicate DottedDigits(groups: seq<string>)
  {
    |groups| >= 2 && forall i :: 0 <= i < |groups| ==> AllDigits(groups[i])
  }

  lemma {:induction false} VersionHasGroups(s: string) returns (groups: seq<string>)
    requires IsVersion(s)
    ensures DottedDigits(groups) && JoinDots(groups) == s
    decreases |s|
  {
    var i := IndexOf(s, '.');
    var first, rest := s[..i], s[i + 1..];
    assert s == first + "." + rest;
    if AllDigits(rest) {
      groups := [first, rest];
      assert groups[1..] == [rest];
    } else {
      var more := VersionHasGroups(rest);
      groups := [first] + more;
      assert groups[1..] == more;
    }
  }

  lemma {:induction false} GroupsAreVersion(groups: seq<string>)
    requires DottedDigits(groups)
    ensures IsVersion(JoinDots(groups))
  {
    var s, first, rest := JoinDots(groups), groups[0], JoinDots(groups[1..]);
    assert s == first + "." + rest;
    assert forall j :: 0 <= j < |first| ==> s[j] == first[j] != '.';
    assert s[|first|] == '.';
    IndexIs(s, '.', |first|);
    assert s[..|first|] == first && s[|first| + 1..] == rest;
    if |groups| > 2 {
      GroupsAreVersion(groups[1..]);
    } else {
      assert groups[1..] == [groups[1]];
    }
  }

  lemma IndexIs(s: string, c: char, i: nat)
    requires i < |s| && s[i] == c && forall j :: 0 <= j < i ==> s[j] != c
    ensures IndexOf(s, c) == i
  {
    hide IndexOf;
  }

  lemma IsVersionIff(s: string)
    ensures IsVersion(s) <==> exists groups :: DottedDigits(groups) && JoinDots(groups) == s
  {
    hide IsVersion, DottedDigits, JoinDots;
    if IsVersion(s) {
      var groups := VersionHasGroups(s);
    }
    forall groups | DottedDigits(groups) && JoinDots(groups) == s ensures IsVersion(s) {
      GroupsAreVersion(groups);
    }
  }

  /** The documented renaming, for every version: pc-i440fx-7.1 becomes pc-q35-7.1. */
  lemma VersionedRename(version: string)
    requires IsVersion(version)
    ensures NewMachine("pc-i440fx-" + version) == "pc-q35-" + version
  {
    hide IsVersion;
    var s := "pc-i440fx-" + version;
    assert s[9] == '-' && s[10..] == version;
    assert !IsVersion(s[3..]) by {
      assert s[3..][0] == 'i';
      LetterIsNoVersion(s[3..]);
    }
    forall j | 0 <= j < 9 ensures s[j] != '-' || !IsVersion(s[j + 1..]) {
      if j == 2 { assert s[j + 1..] == s[3..]; }
    }
    SuffixAt(s, 9);
    assert s[9..][0] == '-' && s[9..][1..] == version;
    assert "pc-q35" + s[9..] == "pc-q35-" + version;
  }

  /** An alias without a dash, such as pc, becomes plain q35. */
  lemma AliasRename(alias: string)
    requires '-' !in alias
    ensures NewMachine(alias) == "q35"
  {
    hide IsVersion;
    SuffixAt(alias, |alias|);
    assert alias[|alias|..] == [];
  }

  /** So does every name that does not end in a dash and a version. */
  lemma UnversionedRename(current: string)
    requires forall i :: 0 <= i < |current| && current[i] == '-' ==> !IsVersion(current[i + 1..])
    ensures NewMachine(current) == "q35"
  {
    hide IsVersion;
    SuffixAt(current, |current|);
    assert current[|current|..] == [];
  }

  /** A name of Ubuntu's, for example. */
  lemma JammyRename()
    ensures NewMachine("pc-i440fx-jammy") == "q35"
  {
    hide IsVersion;
    var s := "pc-i440fx-jammy";
    assert s[3..][0] == 'i' && s[10..][0] == 'j';
    LetterIsNoVersion(s[3..]);
    LetterIsNoVersion(s[10..]);
    UnversionedRename(s);
  }
}
