/** The package: what goes into the archive, and under which names. */
module Archive {
  import opened Dwarf
  import opened Arches
  import opened Package

  // ---- Firmware ----

  const EXCLUDED_FIRMWARE: set<string> := {
    "edk2-arm-code.fd", "edk2-arm-vars.fd", "edk2-aarch64-code.fd", "edk2-riscv-code.fd", "edk2-riscv-vars.fd"
  }

  /** A path below pc-bios: the directory with its final slash (or nothing), and the name. */
  datatype BiosFile = BiosFile(directory: string, name: string, isFile: bool)

  function Relative(f: BiosFile): string {
    f.directory + f.name
  }

  /** A name that is only a suffix has none. */
  predicate Compressed(f: BiosFile) {
    EndsWith(f.name, ".bz2") && |f.name| > 4
  }

  predicate Shipped(f: BiosFile) {
    f.isFile && f.name != "meson.build" && WithoutSuffix(f.name, ".bz2") !in EXCLUDED_FIRMWARE
  }

  function BiosName(f: BiosFile): string {
    "share/qemu/" + f.directory + if Compressed(f) then f.name[..|f.name| - 4] else f.name
  }

  function BiosNames(files: seq<BiosFile>): seq<string> {
    if files == [] then []
    else
      var n := |files| - 1;
      BiosNames(files[..n]) + if Shipped(files[n]) then [BiosName(files[n])] else []
  }

  // ---- Manifests ----

  const METADATA := "penguin-qemu-package.json"

  const QEMU_IMG := "bin/qemu-img"

  function LibraryArc(library: string): string {
    "lib/" + library
  }

  function IncludeArc(header: string): string {
    "include/penguin-qemu-cffi/" + header
  }

  function ModuleArc(name: string): string {
    "lib/penguin-qemu-env/" + name
  }

  /** A build directory as the packager finds it. */
  datatype Directory = Directory(mode: string, files: set<string>, modules: set<string>, manifest: Option<seq<Entry>>)

  function Given(s: Option<string>): Option<string> {
    if s.Some? && s.value != "" then s else None
  }

  /** The names that one entry adds to those before it, or None when something it names is missing. */
  function EntryNames(dir: Directory, before: seq<string>, e: Entry): Option<seq<string>> {
    if e.library !in dir.files || e.header !in dir.files then None
    else
      var env, m := Given(e.envHeader), Given(e.envModule);
      if env.Some? && env.value !in dir.files then None
      else
        var basic := [LibraryArc(e.library), IncludeArc(e.header)] + if env.Some? then [IncludeArc(env.value)] else [];
        if m.None? || ModuleArc(m.value) in before + basic then Some(basic)
        else if m.value !in dir.modules then None
        else Some(basic + [ModuleArc(m.value)])
  }

  /** All names after the first n entries of a directory. */
  function EntriesNames(dir: Directory, before: seq<string>, n: nat): Option<seq<string>>
    requires dir.manifest.Some? && n <= |dir.manifest.value|
  {
    if n == 0 then Some(before)
    else
      var names :- EntriesNames(dir, before, n - 1);
      var added :- EntryNames(dir, names, dir.manifest.value[n - 1]);
      Some(names + added)
  }

  function DirectoryNames(dir: Directory, before: seq<string>): Option<seq<string>> {
    if dir.manifest.None? then Some(before)
    else EntriesNames(dir, before + [IncludeArc(ManifestName(dir.mode))], |dir.manifest.value|)
  }

  /** The names of everything in the archive but the metadata.  Neither the image nor the firmware may be missing. */
  function PackageNames(hasImg: bool, bios: Option<seq<BiosFile>>, system: Directory, kvm: Directory)
      : Option<seq<string>> {
    if !hasImg || bios.None? then None
    else
      var names :- DirectoryNames(system, [QEMU_IMG] + BiosNames(bios.value));
      DirectoryNames(kvm, names)
  }

  class Packager {
    var archive: seq<string>
    var entries: seq<string>

    constructor ()
      ensures archive == [] && entries == []
    {
      archive, entries := [], [];
    }

    method AddQemuImg(hasImg: bool) returns (ok: bool)
      requires archive == entries
      modifies this
      ensures ok == hasImg && archive == entries
      ensures entries == if ok then old(entries) + [QEMU_IMG] else old(entries)
    {
      if !hasImg {
        return false;
      }
      archive := archive + [QEMU_IMG];
      entries := entries + [QEMU_IMG];
      return true;
    }

    /** The files below pc-bios, which may be missing. */
    method AddQemuData(directory: Option<seq<BiosFile>>) returns (ok: bool)
      requires archive == entries
      modifies this
      ensures ok == directory.Some? && archive == entries
      ensures entries == if ok then old(entries) + BiosNames(directory.value) else old(entries)
    {
      hide Shipped, BiosName;
      if directory.None? {
        return false;
      }
      var bios := directory.value;
      for i := 0 to |bios|
        invariant archive == entries == old(entries) + BiosNames(bios[..i])
      {
        assert bios[..i + 1][..i] == bios[..i];
        if !Shipped(bios[i]) {
          continue;
        }
        var arcname := BiosName(bios[i]);
        archive := archive + [arcname];
        entries := entries + [arcname];
      }
      assert bios[..|bios|] == bios;
      return true;
    }

    method AddEntry(dir: Directory, e: Entry) returns (ok: bool)
      requires archive == entries
      modifies this
      ensures match EntryNames(dir, old(entries), e)
        case None => !ok
        case Some(added) => ok && archive == entries == old(entries) + added
    {
      hide LibraryArc, IncludeArc, ModuleArc;
      if e.library !in dir.files || e.header !in dir.files {
        return false;
      }
      var lib, header := LibraryArc(e.library), IncludeArc(e.header);
      archive := archive + [lib];
      archive := archive + [header];
      entries := entries + [lib, header];
      if e.envHeader.Some? && e.envHeader.value != "" {
        if e.envHeader.value !in dir.files {
          return false;
        }
        archive := archive + [IncludeArc(e.envHeader.value)];
        entries := entries + [IncludeArc(e.envHeader.value)];
      }
      if e.envModule.Some? && e.envModule.value != "" {
        var arcname := ModuleArc(e.envModule.value);
        if arcname !in entries {
          if e.envModule.value !in dir.modules {
            return false;
          }
          archive := archive + [arcname];
          entries := entries + [arcname];
        }
      }
      return true;
    }

    method AddDirectory(dir: Directory) returns (ok: bool)
      requires archive == entries
      modifies this
      ensures match DirectoryNames(dir, old(entries))
        case None => !ok
        case Some(names) => ok && archive == entries == names
    {
      hide EntryNames, IncludeArc, ManifestName;
      if dir.manifest.None? {
        return true;
      }
      var name := IncludeArc(ManifestName(dir.mode));
      archive := archive + [name];
      entries := entries + [name];
      var headers := dir.manifest.value;
      ghost var before := entries;
      for i := 0 to |headers|
        invariant archive == entries
        invariant EntriesNames(dir, before, i) == Some(entries)
      {
        var added := AddEntry(dir, headers[i]);
        if !added {
          MissingForGood(dir, before, i + 1);
          return false;
        }
      }
      return true;
    }

    /** On success the archive holds what is listed, in the same order, and the list itself. */
    method Pack(hasImg: bool, bios: Option<seq<BiosFile>>, system: Directory, kvm: Directory) returns (ok: bool)
      requires archive == entries == []
      modifies this
      ensures match PackageNames(hasImg, bios, system, kvm)
        case None => !ok
        case Some(names) => ok && entries == names && archive == names + [METADATA]
    {
      hide DirectoryNames, BiosNames;
      var img := AddQemuImg(hasImg);
      if !img {
        return false;
      }
      var data := AddQemuData(bios);
      if !data {
        return false;
      }
      assert entries == [QEMU_IMG] + BiosNames(bios.value);
      var first := AddDirectory(system);
      if !first {
        return false;
      }
      var second := AddDirectory(kvm);
      if !second {
        return false;
      }
      archive := archive + [METADATA];
      return true;
    }
  }

  lemma {:induction false} MissingForGood(dir: Directory, before: seq<string>, n: nat)
    requires dir.manifest.Some? && n <= |dir.manifest.value| && EntriesNames(dir, before, n).None?
    ensures EntriesNames(dir, before, |dir.manifest.value|).None?
    decreases |dir.manifest.value| - n
  {
    hide EntryNames;
    if n == |dir.manifest.value| {
    } else {
      MissingForGood(dir, before, n + 1);
    }
  }

  // ---- Everything named is there ----

  ghost predicate Holds(names: seq<string>, e: Entry) {
    && LibraryArc(e.library) in names && IncludeArc(e.header) in names
    && (Given(e.envHeader).Some? ==> IncludeArc(e.envHeader.value) in names)
    && (Given(e.envModule).Some? ==> ModuleArc(e.envModule.value) in names)
  }

  lemma EntryHeld(dir: Directory, before: seq<string>, e: Entry)
    requires EntryNames(dir, before, e).Some?
    ensures Holds(before + EntryNames(dir, before, e).value, e)
  {
    hide LibraryArc, IncludeArc, ModuleArc;
    var added := EntryNames(dir, before, e).value;
    var env := Given(e.envHeader);
    var basic := [LibraryArc(e.library), IncludeArc(e.header)] + if env.Some? then [IncludeArc(env.value)] else [];
    assert basic <= added;
    assert forall name :: name in basic ==> name in added;
    assert IncludeArc(e.header) == basic[1] && LibraryArc(e.library) == basic[0];
    if env.Some? {
      assert IncludeArc(env.value) == basic[2];
    }
  }

  lemma {:induction false} EntriesHeld(dir: Directory, before: seq<string>, n: nat, i: nat)
    requires dir.manifest.Some? && i < n <= |dir.manifest.value| && EntriesNames(dir, before, n).Some?
    ensures before <= EntriesNames(dir, before, n).value
    ensures Holds(EntriesNames(dir, before, n).value, dir.manifest.value[i])
  {
    hide EntryNames;
    var names := EntriesNames(dir, before, n - 1).value;
    EntryHeld(dir, names, dir.manifest.value[n - 1]);
    if i == n - 1 {
    } else {
      EntriesHeld(dir, before, n - 1, i);
    }
    EntriesExtend(dir, before, n);
  }

  lemma {:induction false} EntriesExtend(dir: Directory, before: seq<string>, n: nat)
    requires dir.manifest.Some? && n <= |dir.manifest.value| && EntriesNames(dir, before, n).Some?
    ensures before <= EntriesNames(dir, before, n).value
  {
    hide EntryNames;
    if n == 0 {
    } else {
      EntriesExtend(dir, before, n - 1);
    }
  }

  /** A package that is written holds every file that the manifests name. */
  lemma PackageHolds(hasImg: bool, bios: Option<seq<BiosFile>>, system: Directory, kvm: Directory)
    requires PackageNames(hasImg, bios, system, kvm).Some?
    ensures var names := PackageNames(hasImg, bios, system, kvm).value;
      && (system.manifest.Some? ==> forall e :: e in system.manifest.value ==> Holds(names, e))
      && (kvm.manifest.Some? ==> forall e :: e in kvm.manifest.value ==> Holds(names, e))
  {
    hide EntriesNames, Holds;
    var start := [QEMU_IMG] + BiosNames(bios.value);
    var names := DirectoryNames(system, start).value;
    var all := DirectoryNames(kvm, names).value;
    DirectoryHolds(system, start);
    DirectoryHolds(kvm, names);
    if system.manifest.Some? {
      forall e | e in system.manifest.value
        ensures Holds(all, e)
      {
        StillHeld(names, all, e);
      }
    }
  }

  lemma DirectoryHolds(dir: Directory, before: seq<string>)
    requires DirectoryNames(dir, before).Some?
    ensures before <= DirectoryNames(dir, before).value
    ensures dir.manifest.Some? ==>
      forall e :: e in dir.manifest.value ==> Holds(DirectoryNames(dir, before).value, e)
  {
    hide EntriesNames, Holds;
    if dir.manifest.Some? {
      var start, headers := before + [IncludeArc(ManifestName(dir.mode))], dir.manifest.value;
      EntriesExtend(dir, start, |headers|);
      forall e | e in headers
        ensures Holds(DirectoryNames(dir, before).value, e)
      {
        var i :| 0 <= i < |headers| && headers[i] == e;
        EntriesHeld(dir, start, |headers|, i);
      }
    }
  }

  lemma StillHeld(names: seq<string>, more: seq<string>, e: Entry)
    requires Holds(names, e) && names <= more
    ensures Holds(more, e)
  {
    hide LibraryArc, IncludeArc, ModuleArc;
    assert forall name :: name in names ==> name in more;
  }
}
