/** From a list of Penguin arches to the libraries of a build: several arches may share one QEMU target. */
module Arches {
  import opened Dwarf
  import opened Lists

  const SOFTMMU := "-softmmu"

  /** The name of the target of an arch, without its suffix. */
  function StemOf(arch: string): Option<string> {
    if arch == "intel64" || arch == "x86_64" then Some("x86_64")
    else if arch == "armel" || arch == "arm" then Some("arm")
    else if arch == "aarch64" then Some("aarch64")
    else if arch == "mipsel" then Some("mipsel")
    else if arch == "mipseb" || arch == "mips" then Some("mips")
    else if arch == "mips64el" then Some("mips64el")
    else if arch == "mips64eb" || arch == "mips64" then Some("mips64")
    else if arch == "powerpc" || arch == "ppc" then Some("ppc")
    else if arch == "powerpc64" || arch == "powerpc64le" || arch == "powerpc64el" || arch == "ppc64" then Some("ppc64")
    else if arch == "riscv64" then Some("riscv64")
    else if arch == "loongarch64" then Some("loongarch64")
    else None
  }

  function TargetOf(arch: string): Option<string> {
    if StemOf(arch).Some? then Some(StemOf(arch).value + SOFTMMU) else None
  }

  predicate Supported(arches: seq<string>) {
    forall i :: 0 <= i < |arches| ==> TargetOf(arches[i]).Some?
  }

  predicate EndsWith(s: string, suffix: string) {
    |suffix| <= |s| && s[|s| - |suffix|..] == suffix
  }

  function WithoutSuffix(s: string, suffix: string): string {
    if EndsWith(s, suffix) then s[..|s| - |suffix|] else s
  }

  function LibraryOf(name: string): string {
    "libqemu-system-" + name + ".so"
  }

  function SourceOf(target: string): string {
    LibraryOf(WithoutSuffix(target, SOFTMMU))
  }

  lemma StemIsFixed(arch: string)
    requires StemOf(arch).Some?
    ensures StemOf(StemOf(arch).value) == StemOf(arch)
  {
  }

  lemma LibraryInjective(a: string, b: string)
    requires LibraryOf(a) == LibraryOf(b)
    ensures a == b
  {
    var n := |"libqemu-system-"|;
    assert LibraryOf(a)[n..|LibraryOf(a)| - 3] == a;
    assert LibraryOf(b)[n..|LibraryOf(b)| - 3] == b;
  }

  lemma SourceName(arch: string)
    requires TargetOf(arch).Some?
    ensures SourceOf(TargetOf(arch).value) == LibraryOf(StemOf(arch).value)
  {
    var target, stem := TargetOf(arch).value, StemOf(arch).value;
    assert target[|stem|..] == SOFTMMU && target[..|stem|] == stem;
  }

  /** The library that an arch is named after is either its own target's or no target's at all. */
  lemma AliasIsNoForeignSource(arch: string, other: string)
    requires TargetOf(arch).Some? && TargetOf(other).Some?
    requires LibraryOf(arch) == SourceOf(TargetOf(other).value)
    ensures TargetOf(arch) == TargetOf(other)
  {
    hide StemOf;
    SourceName(other);
    LibraryInjective(arch, StemOf(other).value);
    StemIsFixed(other);
  }

  // ---- Lists of targets ----

  /** Succeeds, and prints the value, when it is new. */
  method AppendUnique(value: string, existing: seq<string>) returns (isNew: bool, printed: seq<string>)
    ensures isNew <==> value !in existing
    ensures printed == if isNew then [value] else []
  {
    for i := 0 to |existing|
      invariant value !in existing[..i]
    {
      if existing[i] == value {
        return false, [];
      }
    }
    assert existing[..|existing|] == existing;
    return true, [value];
  }

  /** What the shell has for the target of an arch: nothing when the arch is not supported. */
  function TargetText(arch: string): string {
    if TargetOf(arch).Some? then TargetOf(arch).value else ""
  }

  /** The different targets of the arches, each in the place of its first arch. */
  function Targets(arches: seq<string>): seq<string> {
    if arches == [] then []
    else
      var n := |arches| - 1;
      var earlier, target := Targets(arches[..n]), TargetText(arches[n]);
      if target in earlier then earlier else earlier + [target]
  }

  lemma {:induction false} TargetsCover(arches: seq<string>)
    ensures NoRepeats(Targets(arches))
    ensures forall t :: t in Targets(arches) <==> exists i :: 0 <= i < |arches| && TargetText(arches[i]) == t
  {
    hide TargetText;
    if arches == [] {
    } else {
      var n := |arches| - 1;
      TargetsCover(arches[..n]);
      forall t
        ensures t in Targets(arches) <==> exists i :: 0 <= i < |arches| && TargetText(arches[i]) == t
      {
        if t in Targets(arches[..n]) {
          var i :| 0 <= i < n && TargetText(arches[..n][i]) == t;
          assert TargetText(arches[i]) == t;
        }
        if i :| 0 <= i < |arches| && TargetText(arches[i]) == t {
          if i < n {
            assert TargetText(arches[..n][i]) == t;
          }
        }
      }
    }
  }

  function Joined(items: seq<string>): string {
    if items == [] then "" else if |items| == 1 then items[0] else items[0] + "," + Joined(items[1..])
  }

  /** What is between the commas. */
  function AtCommas(line: string): (items: seq<string>)
    ensures items != []
  {
    if line == "" then [""]
    else
      var rest := AtCommas(line[1..]);
      if line[0] == ',' then [""] + rest else [[line[0]] + rest[0]] + rest[1..]
  }

  lemma {:induction false} NextItem(item: string, line: string)
    requires ',' !in item
    ensures AtCommas(item) == [item]
    ensures AtCommas(item + "," + line) == [item] + AtCommas(line)
  {
    var all := item + "," + line;
    if item == "" {
      assert all[0] == ',' && all[1..] == line;
    } else {
      assert item[0] in item;
      NextItem(item[1..], line);
      assert all[1..] == item[1..] + "," + line;
      assert [item[0]] + item[1..] == item;
    }
  }

  /** Splitting at the commas gives the list back. */
  lemma {:induction false} SplitJoined(items: seq<string>)
    requires items != [] && forall i :: 0 <= i < |items| ==> ',' !in items[i]
    ensures AtCommas(Joined(items)) == items
  {
    hide AtCommas;
    if |items| == 1 {
      NextItem(items[0], "");
    } else {
      SplitJoined(items[1..]);
      NextItem(items[0], Joined(items[1..]));
    }
  }

  lemma NoComma(arch: string)
    ensures ',' !in TargetText(arch)
  {
  }

  lemma LineReadsBack(arches: seq<string>)
    requires arches != []
    ensures AtCommas(Joined(Targets(arches))) == Targets(arches)
  {
    hide TargetText, AtCommas, Joined, Targets;
    var targets := Targets(arches);
    TargetsCover(arches);
    assert TargetText(arches[0]) in targets;
    forall i | 0 <= i < |targets|
      ensures ',' !in targets[i]
    {
      assert targets[i] in targets;
      var j :| 0 <= j < |arches| && TargetText(arches[j]) == targets[i];
      NoComma(arches[j]);
    }
    SplitJoined(targets);
  }

  /** The line that is printed, and what configure reads from it.  An arch that is not supported does not stop the
      loop. */
  method BuildSystemTargetList(arches: seq<string>) returns (line: string)
    ensures line == Joined(Targets(arches))
    ensures arches != [] ==> AtCommas(line) == Targets(arches)
  {
    hide TargetText;
    var targets: seq<string> := [];
    for i := 0 to |arches|
      invariant targets == Targets(arches[..i])
    {
      var target := TargetText(arches[i]);
      var isNew, _ := AppendUnique(target, targets);
      if isNew {
        targets := targets + [target];
      }
      assert arches[..i + 1][..i] == arches[..i];
    }
    assert arches[..|arches|] == arches;
    line := Joined(targets);
    if arches != [] {
      LineReadsBack(arches);
    }
  }

  function Sources(targets: seq<string>): seq<string> {
    seq(|targets|, i requires 0 <= i < |targets| => SourceOf(targets[i]))
  }

  lemma SourcesDiffer(a: string, b: string)
    requires TargetOf(a).Some? && TargetOf(b).Some?
    requires SourceOf(TargetOf(a).value) == SourceOf(TargetOf(b).value)
    ensures TargetOf(a) == TargetOf(b)
  {
    hide StemOf;
    SourceName(a);
    SourceName(b);
    LibraryInjective(StemOf(a).value, StemOf(b).value);
  }

  lemma SourceListed(arches: seq<string>, arch: string)
    requires Supported(arches) && TargetOf(arch).Some?
    ensures SourceOf(TargetOf(arch).value) in Sources(Targets(arches)) <==> TargetOf(arch).value in Targets(arches)
  {
    hide TargetOf, SourceOf;
    var targets, t := Targets(arches), TargetOf(arch).value;
    if SourceOf(t) in Sources(targets) {
      var k :| 0 <= k < |targets| && Sources(targets)[k] == SourceOf(t);
      TargetsCover(arches);
      assert targets[k] in targets;
      var i :| 0 <= i < |arches| && TargetText(arches[i]) == targets[k];
      SourcesDiffer(arch, arches[i]);
    }
    if t in targets {
      var k :| 0 <= k < |targets| && targets[k] == t;
      assert Sources(targets)[k] == SourceOf(t);
    }
  }

  /** What printf makes of its arguments: without any it prints one empty line. */
  function Lines(items: seq<string>): seq<string> {
    if items == [] then [""] else items
  }

  /** How many arches come before the first one that is not supported. */
  function SupportedCount(arches: seq<string>): (n: nat)
    ensures n <= |arches| && Supported(arches[..n])
    ensures n == |arches| || TargetOf(arches[n]).None?
  {
    SupportedFrom(arches, 0)
  }

  function SupportedFrom(arches: seq<string>, i: nat): (n: nat)
    requires i <= |arches| && Supported(arches[..i])
    ensures n <= |arches| && Supported(arches[..n])
    ensures n == |arches| || TargetOf(arches[n]).None?
    decreases |arches| - i
  {
    if i == |arches| || TargetOf(arches[i]).None? then i
    else
      assert arches[..i + 1] == arches[..i] + [arches[i]];
      SupportedFrom(arches, i + 1)
  }

  lemma CountedAt(arches: seq<string>, i: nat)
    requires i <= |arches| && Supported(arches[..i])
    ensures i <= SupportedCount(arches)
    ensures i < |arches| ==> (TargetOf(arches[i]).None? <==> i == SupportedCount(arches))
  {
    hide TargetOf, SupportedCount;
    var n := SupportedCount(arches);
    assert forall k :: 0 <= k < i ==> arches[..i][k] == arches[k];
    assert forall k :: 0 <= k < n ==> arches[..n][k] == arches[k];
  }

  /** The output lists every library twice: once as it is found, because the test for a new one prints it, and
      once at the end, which is not reached when an arch is not supported. */
  method BuildSystemLibList(arches: seq<string>) returns (output: seq<string>)
    ensures
      var n := SupportedCount(arches);
      var libs := Sources(Targets(arches[..n]));
      output == if n < |arches| then libs else libs + Lines(libs)
  {
    hide TargetOf, SourceOf, SupportedCount;
    var libs: seq<string> := [];
    output := [];
    for i := 0 to |arches|
      invariant Supported(arches[..i])
      invariant libs == Sources(Targets(arches[..i]))
      invariant output == libs
    {
      CountedAt(arches, i);
      if TargetOf(arches[i]).None? {
        return output;
      }
      var target := TargetOf(arches[i]).value;
      var lib := SourceOf(target);
      var isNew, printed := AppendUnique(lib, libs);
      output := output + printed;
      SourceListed(arches[..i], arches[i]);
      assert arches[..i + 1][..i] == arches[..i];
      if isNew {
        libs := libs + [lib];
      }
    }
    CountedAt(arches, |arches|);
    assert arches[..|arches|] == arches;
    output := output + Lines(libs);
  }

  // ---- Staging ----

  /** The build directory after staging, or None when an arch is not supported or its library was not built. */
  function Staged<C>(files: map<string, C>, arches: seq<string>): Option<map<string, C>> {
    if arches == [] then Some(files)
    else
      var n := |arches| - 1;
      var before :- Staged(files, arches[..n]);
      var target :- TargetOf(arches[n]);
      var source, alias := SourceOf(target), LibraryOf(arches[n]);
      if source == alias then Some(before)
      else if source in before then Some(before[alias := before[source]])
      else None
  }

  /** An arch whose own target's library is there, whatever its name. */
  predicate Buildable<C>(files: map<string, C>, arch: string) {
    TargetOf(arch).Some? &&
    (SourceOf(TargetOf(arch).value) == LibraryOf(arch) || SourceOf(TargetOf(arch).value) in files)
  }

  ghost predicate OwnLibrary<C>(files: map<string, C>, after: map<string, C>, arch: string) {
    && TargetOf(arch).Some?
    && (SourceOf(TargetOf(arch).value) in files ==>
          LibraryOf(arch) in after && after[LibraryOf(arch)] == files[SourceOf(TargetOf(arch).value)])
  }

  ghost predicate SourcesKept<C>(files: map<string, C>, after: map<string, C>) {
    forall arch :: TargetOf(arch).Some? ==>
      var source := SourceOf(TargetOf(arch).value);
      (source in after <==> source in files) && (source in files ==> after[source] == files[source])
  }

  /** Staging succeeds exactly when each arch can be staged.  It then leaves every arch with the library of its own
      target, overwrites no library that a target was built into, and touches nothing but the names of arches. */
  lemma {:induction false} StagingIsSound<C>(files: map<string, C>, arches: seq<string>)
    ensures Staged(files, arches).Some? <==> forall i :: 0 <= i < |arches| ==> Buildable(files, arches[i])
    ensures Staged(files, arches).Some? ==>
      var after := Staged(files, arches).value;
      && SourcesKept(files, after)
      && (forall i :: 0 <= i < |arches| ==> OwnLibrary(files, after, arches[i]))
      && (forall name :: name in files || name in after ==>
            (name in files && name in after && after[name] == files[name]) ||
            exists i :: 0 <= i < |arches| && name == LibraryOf(arches[i]))
  {
    hide TargetOf, SourceOf, LibraryOf;
    if arches == [] {
    } else {
      var n := |arches| - 1;
      StagingIsSound(files, arches[..n]);
      assert forall i :: 0 <= i < n ==> arches[..n][i] == arches[i];
      if Staged(files, arches[..n]).Some? && TargetOf(arches[n]).Some? {
        var before, arch := Staged(files, arches[..n]).value, arches[n];
        var source := SourceOf(TargetOf(arch).value);
        assert source in before <==> source in files;
        if source != LibraryOf(arch) && source in before {
          AliasCopied(files, before, before[LibraryOf(arch) := before[source]], arch, arches);
        }
      }
    }
  }

  lemma AliasCopied<C>(files: map<string, C>, before: map<string, C>, after: map<string, C>, arch: string, arches: seq<string>)
    requires TargetOf(arch).Some? && arches != [] && arches[|arches| - 1] == arch
    requires SourcesKept(files, before)
    requires forall i :: 0 <= i < |arches| - 1 ==> OwnLibrary(files, before, arches[i])
    requires var source := SourceOf(TargetOf(arch).value);
      source != LibraryOf(arch) && source in before && after == before[LibraryOf(arch) := before[source]]
    ensures SourcesKept(files, after)
    ensures forall i :: 0 <= i < |arches| ==> OwnLibrary(files, after, arches[i])
  {
    hide TargetOf, SourceOf, LibraryOf;
    forall other | TargetOf(other).Some?
      ensures SourceOf(TargetOf(other).value) != LibraryOf(arch)
    {
      if SourceOf(TargetOf(other).value) == LibraryOf(arch) {
        AliasIsNoForeignSource(arch, other);
      }
    }
    forall i | 0 <= i < |arches|
      ensures OwnLibrary(files, after, arches[i])
    {
      if i < |arches| - 1 && LibraryOf(arches[i]) == LibraryOf(arch) {
        LibraryInjective(arches[i], arch);
      }
    }
  }

  class BuildDir<C> {
    var files: map<string, C>

    constructor (files: map<string, C>)
      ensures this.files == files
    {
      this.files := files;
    }

    method StageSystemLibAliases(arches: seq<string>) returns (ok: bool)
      modifies this
      ensures match Staged(old(files), arches)
        case None => !ok
        case Some(after) => ok && files == after
    {
      hide TargetOf, SourceOf, LibraryOf;
      for i := 0 to |arches|
        invariant Staged(old(files), arches[..i]) == Some(files)
      {
        assert arches[..i + 1][..i] == arches[..i];
        var target := TargetOf(arches[i]);
        if target.None? {
          StopsForGood(old(files), arches, i + 1);
          return false;
        }
        var source := SourceOf(target.value);
        var alias := LibraryOf(arches[i]);
        if source != alias {
          if source !in files {
            StopsForGood(old(files), arches, i + 1);
            return false;
          }
          files := files[alias := files[source]];
        }
      }
      assert arches[..|arches|] == arches;
      return true;
    }
  }

  lemma {:induction false} StopsForGood<C>(files: map<string, C>, arches: seq<string>, n: nat)
    requires n <= |arches| && Staged(files, arches[..n]).None?
    ensures Staged(files, arches).None?
    decreases |arches| - n
  {
    hide TargetOf, SourceOf, LibraryOf;
    if n < |arches| {
      assert arches[..n + 1][..n] == arches[..n];
      StopsForGood(files, arches, n + 1);
    } else {
      assert arches[..n] == arches;
    }
  }
}
