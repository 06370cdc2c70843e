/** Which firmware is shipped, on the paths below pc-bios and the names below share/qemu themselves. */
module Firmware {
  import opened Dwarf
  import opened Arches
  import opened Package
  import opened Archive

  /** The flash images that no Penguin arch loads. */
  predicate IsUnused(name: string) {
    || name == "edk2-arm-code.fd" || name == "edk2-arm-vars.fd" || name == "edk2-aarch64-code.fd"
    || name == "edk2-riscv-code.fd" || name == "edk2-riscv-vars.fd"
  }

  /** A file that is left out, whether compressed or not. */
  ghost predicate LeftOut(f: BiosFile) {
    || !f.isFile || f.name == "meson.build" || IsUnused(f.name)
    || exists stem :: IsUnused(stem) && f.name == stem + ".bz2"
  }

  /** The name of a compressed file is that of its content with ".bz2" behind it. */
  ghost predicate IsCompressed(f: BiosFile) {
    exists stem :: stem != "" && f.name == stem + ".bz2"
  }

  /** Below share/qemu a file has its path below pc-bios, without ".bz2" if it is compressed. */
  ghost predicate ShippedAs(f: BiosFile, name: string) {
    (if IsCompressed(f) then name + ".bz2" else name) == "share/qemu/" + Relative(f)
  }

  /** The name is that of a file that is not left out. */
  ghost predicate IsFirmware(bios: seq<BiosFile>, name: string) {
    exists f :: f in bios && !LeftOut(f) && ShippedAs(f, name)
  }

  lemma StemOfName(name: string, suffix: string)
    ensures forall stem :: name == stem + suffix ==> EndsWith(name, suffix) && stem == name[..|name| - |suffix|]
    ensures EndsWith(name, suffix) ==> name == name[..|name| - |suffix|] + suffix
  {
  }

  lemma CompressedExactly(f: BiosFile)
    ensures Compressed(f) <==> IsCompressed(f)
  {
    StemOfName(f.name, ".bz2");
    if Compressed(f) {
      var stem := f.name[..|f.name| - 4];
      assert stem != "" && f.name == stem + ".bz2";
    }
  }

  lemma ShippedExactly(f: BiosFile)
    ensures Shipped(f) <==> !LeftOut(f)
  {
    StemOfName(f.name, ".bz2");
    assert forall name :: name in EXCLUDED_FIRMWARE <==> IsUnused(name);
    assert forall name :: IsUnused(name) ==> !EndsWith(name, ".bz2");
    if EndsWith(f.name, ".bz2") {
      var stem := f.name[..|f.name| - 4];
      assert f.name == stem + ".bz2" && WithoutSuffix(f.name, ".bz2") == stem;
    }
  }

  lemma NameExactly(f: BiosFile, name: string)
    ensures ShippedAs(f, name) <==> name == BiosName(f)
  {
    CompressedExactly(f);
    if Compressed(f) {
      var stem := f.name[..|f.name| - 4];
      assert f.name == stem + ".bz2";
      assert "share/qemu/" + Relative(f) == BiosName(f) + ".bz2";
      if name + ".bz2" == BiosName(f) + ".bz2" {
        assert (name + ".bz2")[..|name|] == name && (BiosName(f) + ".bz2")[..|BiosName(f)|] == BiosName(f);
      }
    } else {
      assert "share/qemu/" + Relative(f) == BiosName(f);
    }
  }

  /** What is shipped of pc-bios: every file that is not left out, and nothing else. */
  lemma {:induction false} FirmwareExactly(bios: seq<BiosFile>, name: string)
    ensures name in BiosNames(bios) <==> IsFirmware(bios, name)
  {
    hide Shipped, BiosName, LeftOut, ShippedAs;
    if bios == [] {
    } else {
      var n := |bios| - 1;
      var f := bios[n];
      FirmwareExactly(bios[..n], name);
      ShippedExactly(f);
      NameExactly(f, name);
      assert bios == bios[..n] + [f];
      if IsFirmware(bios[..n], name) {
        var h :| h in bios[..n] && !LeftOut(h) && ShippedAs(h, name);
        assert h in bios;
      }
      if IsFirmware(bios, name) {
        var h :| h in bios && !LeftOut(h) && ShippedAs(h, name);
        assert h in bios[..n] || h == f;
      }
    }
  }

  // ---- The last component of a name ----

  /** A directory ends in its slash, and a name has none. */
  predicate IsPath(f: BiosFile) {
    && (f.directory == "" || f.directory[|f.directory| - 1] == '/')
    && '/' !in f.name
  }

  lemma {:induction false} BaseOf(directory: string, name: string)
    requires directory == "" || directory[|directory| - 1] == '/'
    requires '/' !in name
    ensures BaseName(directory + name) == name
  {
    var path := directory + name;
    if name == "" {
      assert path == directory;
    } else {
      var n := |name| - 1;
      BaseOf(directory, name[..n]);
      assert path[..|path| - 1] == directory + name[..n];
      assert path[|path| - 1] == name[n] && name[n] in name;
      assert name == name[..n] + [name[n]];
    }
  }

  /** No unused image is shipped, in any form: no name has one as its last component. */
  lemma NoUnusedImage(bios: seq<BiosFile>, name: string)
    requires forall f :: f in bios ==> IsPath(f)
    requires name in BiosNames(bios)
    ensures !IsUnused(BaseName(name))
  {
    hide BiosNames, IsUnused, BaseName;
    FirmwareExactly(bios, name);
    var f :| f in bios && !LeftOut(f) && ShippedAs(f, name);
    NameExactly(f, name);
    CompressedExactly(f);
    var stem := if Compressed(f) then f.name[..|f.name| - 4] else f.name;
    assert name == ("share/qemu/" + f.directory) + stem;
    BaseOf("share/qemu/" + f.directory, stem);
    if Compressed(f) {
      assert f.name == stem + ".bz2";
    }
  }

  // ---- All names in the archive ----

  /** An entry names this. */
  ghost predicate NamedBy(e: Entry, name: string) {
    || name == LibraryArc(e.library) || name == IncludeArc(e.header)
    || (Given(e.envHeader).Some? && name == IncludeArc(e.envHeader.value))
    || (Given(e.envModule).Some? && name == ModuleArc(e.envModule.value))
  }

  ghost predicate NamedIn(dir: Directory, name: string) {
    dir.manifest.Some? &&
    (name == IncludeArc(ManifestName(dir.mode)) || exists e :: e in dir.manifest.value && NamedBy(e, name))
  }

  lemma EntryExactly(dir: Directory, before: seq<string>, e: Entry, name: string)
    requires EntryNames(dir, before, e).Some?
    ensures name in before + EntryNames(dir, before, e).value <==> name in before || NamedBy(e, name)
  {
    hide LibraryArc, IncludeArc, ModuleArc;
    var env, m := Given(e.envHeader), Given(e.envModule);
    var basic := [LibraryArc(e.library), IncludeArc(e.header)] + if env.Some? then [IncludeArc(env.value)] else [];
    assert name in basic <==>
      name == LibraryArc(e.library) || name == IncludeArc(e.header) || (env.Some? && name == IncludeArc(env.value));
  }

  lemma {:induction false} EntriesExactly(dir: Directory, before: seq<string>, n: nat, name: string)
    requires dir.manifest.Some? && n <= |dir.manifest.value| && EntriesNames(dir, before, n).Some?
    ensures name in EntriesNames(dir, before, n).value <==>
      name in before || exists e :: e in dir.manifest.value[..n] && NamedBy(e, name)
  {
    hide EntryNames, NamedBy;
    if n == 0 {
    } else {
      var all, e := dir.manifest.value, dir.manifest.value[n - 1];
      EntriesExactly(dir, before, n - 1, name);
      EntryExactly(dir, EntriesNames(dir, before, n - 1).value, e, name);
      assert all[..n] == all[..n - 1] + [e];
      if d :| d in all[..n - 1] && NamedBy(d, name) {
        assert d in all[..n];
      }
      if d :| d in all[..n] && NamedBy(d, name) {
        assert d in all[..n - 1] || d == e;
      }
    }
  }

  lemma DirectoryExactly(dir: Directory, before: seq<string>, name: string)
    requires DirectoryNames(dir, before).Some?
    ensures name in DirectoryNames(dir, before).value <==> name in before || NamedIn(dir, name)
  {
    hide EntriesNames, NamedBy, IncludeArc, ManifestName;
    if dir.manifest.Some? {
      var entries := dir.manifest.value;
      EntriesExactly(dir, before + [IncludeArc(ManifestName(dir.mode))], |entries|, name);
      assert entries[..|entries|] == entries;
    }
  }

  /** Exactly what a package holds: the image, the firmware, what the two manifests name, and the list of it all. */
  lemma PackageExactly(bios: seq<BiosFile>, system: Directory, kvm: Directory, name: string)
    requires PackageNames(true, Some(bios), system, kvm).Some?
    ensures name in PackageNames(true, Some(bios), system, kvm).value + [METADATA] <==>
      || name == "bin/qemu-img" || name == "penguin-qemu-package.json" || IsFirmware(bios, name)
      || NamedIn(system, name) || NamedIn(kvm, name)
  {
    hide DirectoryNames, BiosNames, IsFirmware, NamedIn;
    var start := [QEMU_IMG] + BiosNames(bios);
    FirmwareExactly(bios, name);
    DirectoryExactly(system, start, name);
    DirectoryExactly(kvm, DirectoryNames(system, start).value, name);
  }

  /** Below share/qemu there is the firmware and nothing else. */
  lemma BelowShare(bios: seq<BiosFile>, system: Directory, kvm: Directory, name: string)
    requires PackageNames(true, Some(bios), system, kvm).Some? && "share/qemu/" <= name
    ensures name in PackageNames(true, Some(bios), system, kvm).value + [METADATA] <==> IsFirmware(bios, name)
  {
    hide PackageNames, IsFirmware;
    PackageExactly(bios, system, kvm, name);
    assert name[0] == "share/qemu/"[0];
    NoShare(system, name);
    NoShare(kvm, name);
  }

  lemma NoShare(dir: Directory, name: string)
    requires name != "" && name[0] == 's'
    ensures !NamedIn(dir, name)
  {
    forall x
      ensures IncludeArc(x) != name && LibraryArc(x) != name && ModuleArc(x) != name
    {
      assert IncludeArc(x)[0] == "include/penguin-qemu-cffi/"[0];
      assert LibraryArc(x)[0] == "lib/"[0];
      assert ModuleArc(x)[0] == "lib/penguin-qemu-env/"[0];
    }
  }

  // ---- Nothing that is missing ----

  /** The files of an entry are there; a module may instead be in the package already. */
  ghost predicate Found(dir: Directory, before: seq<string>, e: Entry)
    requires dir.manifest.Some?
  {
    && e.library in dir.files && e.header in dir.files
    && (Given(e.envHeader).Some? ==> e.envHeader.value in dir.files)
    && (Given(e.envModule).Some? ==>
          || e.envModule.value in dir.modules || ModuleArc(e.envModule.value) in before
          || exists f :: f in dir.manifest.value && ModuleArc(e.envModule.value) == LibraryArc(f.library))
  }

  lemma ModuleArcs(m: string, n: string, header: string)
    ensures ModuleArc(m) == ModuleArc(n) ==> m == n
    ensures ModuleArc(m) != IncludeArc(header)
  {
    var k := |"lib/penguin-qemu-env/"|;
    assert ModuleArc(m)[k..] == m && ModuleArc(n)[k..] == n;
    assert ModuleArc(m)[0] == "lib/penguin-qemu-env/"[0] && IncludeArc(header)[0] == "include/penguin-qemu-cffi/"[0];
  }

  lemma {:induction false} EntriesFound(dir: Directory, before: seq<string>, n: nat, i: nat)
    requires dir.manifest.Some? && i < n <= |dir.manifest.value| && EntriesNames(dir, before, n).Some?
    ensures Found(dir, before, dir.manifest.value[i])
    decreases n
  {
    hide LibraryArc, IncludeArc, ModuleArc;
    if i < n - 1 {
      EntriesFound(dir, before, n - 1, i);
    } else {
      var entries, e, names := dir.manifest.value, dir.manifest.value[i], EntriesNames(dir, before, i).value;
      if Given(e.envModule).Some? && e.envModule.value !in dir.modules {
        var name := ModuleArc(e.envModule.value);
        EntryListed(dir, names, e);
        EntriesExactly(dir, before, i, name);
        if name !in before {
          ModuleArcs(e.envModule.value, "", e.header);
          if f :| f in entries[..i] && NamedBy(f, name) {
            var k :| 0 <= k < i && entries[k] == f;
            EntriesFound(dir, before, n - 1, k);
            ModuleArcs(e.envModule.value, if f.envModule.Some? then f.envModule.value else "", f.header);
            ModuleArcs(e.envModule.value, "", if f.envHeader.Some? then f.envHeader.value else "");
            assert f in entries;
          }
          ModuleArcs(e.envModule.value, "", if e.envHeader.Some? then e.envHeader.value else "");
          assert e in entries;
        }
      }
    }
  }

  lemma EntryListed(dir: Directory, before: seq<string>, e: Entry)
    requires EntryNames(dir, before, e).Some? && Given(e.envModule).Some? && e.envModule.value !in dir.modules
    ensures var name := ModuleArc(e.envModule.value);
      || name in before || name == LibraryArc(e.library) || name == IncludeArc(e.header)
      || (Given(e.envHeader).Some? && name == IncludeArc(e.envHeader.value))
  {
    hide LibraryArc, IncludeArc, ModuleArc;
  }

  /** A package is not written when a file that a manifest names is missing. */
  lemma NothingMissing(dir: Directory, before: seq<string>)
    requires DirectoryNames(dir, before).Some? && dir.manifest.Some?
    ensures forall e :: e in dir.manifest.value ==>
      Found(dir, before + ["include/penguin-qemu-cffi/" + ManifestName(dir.mode)], e)
  {
    hide EntriesNames, Found, ManifestName;
    var entries := dir.manifest.value;
    forall e | e in entries
      ensures Found(dir, before + [IncludeArc(ManifestName(dir.mode))], e)
    {
      var i :| 0 <= i < |entries| && entries[i] == e;
      EntriesFound(dir, before + [IncludeArc(ManifestName(dir.mode))], |entries|, i);
    }
  }
}
