/** When a package ships a name twice, for every manifest that the generators can write. */
module Distinct {
  import opened Dwarf
  import opened Lists
  import opened Package
  import opened Archive
  import opened Naming

  // ---- No name twice ----

  /** Every name stands for one of these items, and no two are the same. */
  ghost predicate Distinctly(names: seq<string>, used: set<Item>) {
    && NoRepeats(names)
    && (forall x :: x in used ==> ValidItem(x))
    && (forall name :: name in names ==> exists x :: x in used && ArcOf(x) == name)
  }

  lemma AddItem(names: seq<string>, used: set<Item>, x: Item)
    requires Distinctly(names, used) && ValidItem(x) && x !in used
    requires forall y :: y in used ==> !Confused(x, y) && !Confused(y, x)
    ensures Distinctly(names + [ArcOf(x)], used + {x})
  {
    hide ValidItem, ArcOf;
    if ArcOf(x) in names {
      var y :| y in used && ArcOf(y) == ArcOf(x);
      ArcInjective(x, y);
    }
    StandsFor(names, used, x);
  }

  lemma StandsFor(names: seq<string>, used: set<Item>, x: Item)
    requires forall name :: name in names ==> exists y :: y in used && ArcOf(y) == name
    ensures forall name :: name in names + [ArcOf(x)] ==> exists y :: y in used + {x} && ArcOf(y) == name
  {
    hide ArcOf;
    forall name | name in names + [ArcOf(x)]
      ensures exists y :: y in used + {x} && ArcOf(y) == name
    {
      if name in names {
        var y :| y in used && ArcOf(y) == name;
        assert y in used + {x};
      } else {
        assert x in used + {x};
      }
    }
  }

  lemma AddModule(names: seq<string>, used: set<Item>, name: string)
    requires Distinctly(names, used) && ModuleArc(name) !in names
    ensures Distinctly(names + [ModuleArc(name)], used + {Module(name)})
  {
    assert ArcOf(Module(name)) == ModuleArc(name);
    StandsFor(names, used, Module(name));
  }

  /** An entry as the generators write it. */
  predicate Generated(mode: string, e: Entry) {
    && e.library == LibraryName(mode, e.arch) && e.header == HeaderName(mode, e.arch)
    && (Given(e.envHeader).Some? ==> e.envHeader == Some(EnvName(mode, e.arch)))
  }

  predicate OfArch(x: Item, mode: string, arch: string) {
    match x
    case Library(m, a) => m == mode && a == arch
    case Header(m, a) => m == mode && a == arch
    case EnvHeader(m, a) => m == mode && a == arch
    case _ => false
  }

  /** What an entry adds besides modules. */
  predicate AddedBy(x: Item, mode: string, e: Entry) {
    OfArch(x, mode, e.arch) && (x.EnvHeader? ==> Given(e.envHeader).Some?)
  }

  /** Nothing of this entry is used yet, and nothing that it could be confused with. */
  ghost predicate EntryUnused(used: set<Item>, mode: string, e: Entry) {
    forall x :: x in used ==>
      && !OfArch(x, mode, e.arch)
      && !Confused(Header(mode, e.arch), x)
      && (Given(e.envHeader).Some? ==> !Confused(x, EnvHeader(mode, e.arch)))
  }

  lemma EntryDistinct(dir: Directory, before: seq<string>, used: set<Item>, e: Entry) returns (more: set<Item>)
    requires EntryNames(dir, before, e).Some? && Distinctly(before, used)
    requires IsMode(dir.mode) && Generated(dir.mode, e) && EntryUnused(used, dir.mode, e)
    ensures Distinctly(before + EntryNames(dir, before, e).value, more) && used <= more
    ensures forall x :: x in more && x !in used ==> x.Module? || AddedBy(x, dir.mode, e)
  {
    hide LibraryName, HeaderName, EnvName, EnvHeaderName, IsMode, Distinctly, ModuleArc, LibraryArc, IncludeArc;
    var lib, header, env := Library(dir.mode, e.arch), Header(dir.mode, e.arch), EnvHeader(dir.mode, e.arch);
    AddItem(before, used, lib);
    more := used + {lib};
    var names := before + [ArcOf(lib)];
    AddItem(names, more, header);
    more := more + {header};
    names := names + [ArcOf(header)];
    var basic := [ArcOf(lib), ArcOf(header)];
    if Given(e.envHeader).Some? {
      NeverConfusedWithItself(dir.mode, e.arch);
      AddItem(names, more, env);
      more := more + {env};
      names := names + [ArcOf(env)];
      basic := basic + [ArcOf(env)];
    }
    assert names == before + basic;
    var envNames := if Given(e.envHeader).Some? then [IncludeArc(Given(e.envHeader).value)] else [];
    assert basic == [LibraryArc(e.library), IncludeArc(e.header)] + envNames;
    var m := Given(e.envModule);
    if m.Some? && ModuleArc(m.value) !in names {
      AddModule(names, more, m.value);
      more := more + {Module(m.value)};
      assert names + [ModuleArc(m.value)] == before + (basic + [ModuleArc(m.value)]);
    }
  }

  lemma {:induction false} NeverShorter(s: string)
    ensures |EnvHeaderName(s)| >= |s|
  {
    if |s| < 2 {
    } else if s[..2] == ".h" {
      NeverShorter(s[2..]);
    } else {
      NeverShorter(s[1..]);
    }
  }

  lemma NeverConfusedWithItself(mode: string, arch: string)
    ensures !Confused(Header(mode, arch), EnvHeader(mode, arch))
  {
    NeverShorter(arch);
  }

  ghost predicate DifferentArches(entries: seq<Entry>) {
    forall i, j :: 0 <= i < j < |entries| ==> entries[i].arch != entries[j].arch
  }

  /** The first entry's header has the name of the second one's header for the CPU state. */
  predicate Collides(e: Entry, f: Entry) {
    Given(f.envHeader).Some? && e.arch == EnvHeaderName(f.arch) + "_env"
  }

  /** Different arches, and none called like another one with "_env" behind it and in its ".h". */
  ghost predicate EntriesApart(entries: seq<Entry>) {
    && DifferentArches(entries)
    && forall i, j :: 0 <= i < |entries| && 0 <= j < |entries| ==> !Collides(entries[i], entries[j])
  }

  ghost predicate Apart(dir: Directory) {
    dir.manifest.Some? ==> EntriesApart(dir.manifest.value)
  }

  /** A directory whose manifest, if there is one, the generators wrote. */
  ghost predicate WellGenerated(dir: Directory) {
    IsMode(dir.mode) &&
    (dir.manifest.Some? ==>
       forall i :: 0 <= i < |dir.manifest.value| ==> Generated(dir.mode, dir.manifest.value[i]))
  }

  lemma {:induction false} EntriesDistinct(dir: Directory, before: seq<string>, used: set<Item>, n: nat)
      returns (more: set<Item>)
    requires dir.manifest.Some? && WellGenerated(dir) && Apart(dir) && n <= |dir.manifest.value|
    requires EntriesNames(dir, before, n).Some? && Distinctly(before, used)
    requires forall x, arch :: x in used ==> !OfArch(x, dir.mode, arch)
    ensures Distinctly(EntriesNames(dir, before, n).value, more) && used <= more
    ensures forall x :: x in more && x !in used ==>
      x.Module? || exists i :: 0 <= i < n && AddedBy(x, dir.mode, dir.manifest.value[i])
  {
    hide Generated, Distinctly, EntryNames, IsMode, EnvHeaderName;
    if n == 0 {
      more := used;
    } else {
      var names, e := EntriesNames(dir, before, n - 1).value, dir.manifest.value[n - 1];
      var earlier := EntriesDistinct(dir, before, used, n - 1);
      forall x | x in earlier
        ensures !OfArch(x, dir.mode, e.arch)
        ensures !Confused(Header(dir.mode, e.arch), x)
        ensures Given(e.envHeader).Some? ==> !Confused(x, EnvHeader(dir.mode, e.arch))
      {
        if x !in used && !x.Module? {
          var i :| 0 <= i < n - 1 && AddedBy(x, dir.mode, dir.manifest.value[i]);
          assert dir.manifest.value[i].arch != e.arch;
          assert !Collides(dir.manifest.value[i], e) && !Collides(e, dir.manifest.value[i]);
        } else if x.Header? || x.EnvHeader? {
          assert !OfArch(x, dir.mode, x.arch);
        }
      }
      more := EntryDistinct(dir, names, earlier, e);
    }
  }

  /** Only items of this mode, and modules, were added. */
  ghost predicate AddedFor(used: set<Item>, more: set<Item>, mode: string) {
    used <= more &&
    forall x :: x in more && x !in used ==> x == ManifestOf(mode) || x.Module? || exists arch :: OfArch(x, mode, arch)
  }

  lemma DirectoryDistinct(dir: Directory, before: seq<string>, used: set<Item>) returns (more: set<Item>)
    requires WellGenerated(dir) && Apart(dir) && DirectoryNames(dir, before).Some? && Distinctly(before, used)
    requires ManifestOf(dir.mode) !in used && forall x, arch :: x in used ==> !OfArch(x, dir.mode, arch)
    ensures Distinctly(DirectoryNames(dir, before).value, more) && AddedFor(used, more, dir.mode)
  {
    hide Distinctly, Generated, EntriesNames, IncludeArc, ManifestName;
    if dir.manifest.None? {
      more := used;
    } else {
      var item := ManifestOf(dir.mode);
      AddItem(before, used, item);
      assert ArcOf(item) == IncludeArc(ManifestName(dir.mode));
      more := EntriesDistinct(dir, before + [ArcOf(item)], used + {item}, |dir.manifest.value|);
    }
  }

  /** No two files that are shipped get the same name. */
  ghost predicate BiosApart(bios: seq<BiosFile>) {
    forall i, j :: 0 <= i < j < |bios| && Shipped(bios[i]) && Shipped(bios[j]) ==> BiosName(bios[i]) != BiosName(bios[j])
  }

  function Rest(f: BiosFile): string {
    f.directory + if Compressed(f) then f.name[..|f.name| - 4] else f.name
  }

  lemma BiosArc(f: BiosFile)
    ensures ArcOf(Bios(Rest(f))) == BiosName(f)
  {
    assert "share/qemu/" + (f.directory + f.name) == "share/qemu/" + f.directory + f.name;
  }

  lemma RestName(f: BiosFile)
    ensures BiosName(f)[11..] == Rest(f)
    ensures Relative(f) == if Compressed(f) then Rest(f) + ".bz2" else Rest(f)
  {
    BiosArc(f);
    assert "share/qemu/" + Rest(f) == BiosName(f);
    if Compressed(f) {
      assert f.name == f.name[..|f.name| - 4] + ".bz2";
    }
  }

  /** Both are shipped, and the second is the first one's compressed form. */
  predicate BesideItself(f: BiosFile, h: BiosFile) {
    Shipped(f) && Shipped(h) && !Compressed(f) && Compressed(h) && Relative(h) == Relative(f) + ".bz2"
  }

  /** Files with different paths get the same name exactly when one of them is shipped beside its own compressed
      form. */
  lemma BiosApartExactly(bios: seq<BiosFile>)
    requires forall i, j :: 0 <= i < j < |bios| ==> Relative(bios[i]) != Relative(bios[j])
    ensures BiosApart(bios) <==>
      forall i, j :: 0 <= i < |bios| && 0 <= j < |bios| ==> !BesideItself(bios[i], bios[j])
  {
    hide Shipped, Compressed, BiosName, Rest, Relative;
    forall i, j | 0 <= i < |bios| && 0 <= j < |bios|
      ensures !Compressed(bios[i]) && Compressed(bios[j]) ==>
        (Relative(bios[j]) == Relative(bios[i]) + ".bz2" <==> BiosName(bios[i]) == BiosName(bios[j]))
      ensures (Compressed(bios[i]) <==> Compressed(bios[j])) && i != j ==> BiosName(bios[i]) != BiosName(bios[j])
    {
      SameName(bios[i], bios[j]);
    }
  }

  lemma SameName(f: BiosFile, h: BiosFile)
    ensures !Compressed(f) && Compressed(h) ==> (Relative(h) == Relative(f) + ".bz2" <==> BiosName(f) == BiosName(h))
    ensures (Compressed(f) <==> Compressed(h)) && BiosName(f) == BiosName(h) ==> Relative(f) == Relative(h)
  {
    RestName(f);
    RestName(h);
    BiosArc(f);
    BiosArc(h);
    hide Compressed, BiosName, Rest, Relative;
    if Rest(h) + ".bz2" == Rest(f) + ".bz2" {
      assert (Rest(h) + ".bz2")[..|Rest(h)|] == Rest(h) && (Rest(f) + ".bz2")[..|Rest(f)|] == Rest(f);
    }
  }

  lemma {:induction false} BiosDistinct(bios: seq<BiosFile>, n: nat) returns (used: set<Item>)
    requires n <= |bios| && BiosApart(bios)
    ensures Distinctly([QEMU_IMG] + BiosNames(bios[..n]), used)
    ensures forall x :: x in used ==>
      x == Image || exists i :: 0 <= i < n && Shipped(bios[i]) && x == Bios(Rest(bios[i]))
  {
    hide Shipped, Rest, BiosName;
    if n == 0 {
      used := {Image};
      assert Distinctly([], {});
      AddItem([], {}, Image);
      assert [] + [ArcOf(Image)] == [QEMU_IMG] + BiosNames(bios[..0]);
      assert {} + {Image} == used;
    } else {
      used := BiosDistinct(bios, n - 1);
      assert bios[..n][..n - 1] == bios[..n - 1];
      var f, item := bios[n - 1], Bios(Rest(bios[n - 1]));
      if Shipped(f) {
        forall x | x in used
          ensures x != item
        {
          if x != Image {
            var i :| 0 <= i < n - 1 && Shipped(bios[i]) && x == Bios(Rest(bios[i]));
            BiosArc(bios[i]);
            BiosArc(f);
          }
        }
        var names := [QEMU_IMG] + BiosNames(bios[..n - 1]);
        AddItem(names, used, item);
        used := used + {item};
        BiosArc(f);
        assert names + [ArcOf(item)] == [QEMU_IMG] + BiosNames(bios[..n]);
      } else {
        assert BiosNames(bios[..n]) == BiosNames(bios[..n - 1]);
      }
    }
  }

  lemma BiosListed(bios: seq<BiosFile>, i: nat)
    requires i < |bios| && Shipped(bios[i])
    ensures BiosName(bios[i]) in BiosNames(bios)
  {
    hide Shipped, BiosName;
    var n := |bios| - 1;
    if i < n {
      BiosListed(bios[..n], i);
    }
  }

  lemma {:induction false} BiosRepeat(bios: seq<BiosFile>, i: nat, j: nat)
    requires i < j < |bios| && Shipped(bios[i]) && Shipped(bios[j]) && BiosName(bios[i]) == BiosName(bios[j])
    ensures !NoRepeats(BiosNames(bios))
  {
    hide Shipped, BiosName;
    var n := |bios| - 1;
    var earlier := BiosNames(bios[..n]);
    if j < n {
      BiosRepeat(bios[..n], i, j);
      RepeatsKept(earlier, [], BiosNames(bios)[|earlier|..]);
      assert [] + earlier + BiosNames(bios)[|earlier|..] == BiosNames(bios);
    } else {
      BiosListed(bios[..n], i);
      var k :| 0 <= k < |earlier| && earlier[k] == BiosName(bios[i]);
      assert BiosNames(bios)[k] == BiosNames(bios)[|earlier|];
    }
  }

  /** No name is in the archive twice when firmware and entries are apart. */
  lemma PackageDistinct(bios: seq<BiosFile>, system: Directory, kvm: Directory)
    requires PackageNames(true, Some(bios), system, kvm).Some? && BiosApart(bios) && Apart(system) && Apart(kvm)
    requires WellGenerated(system) && WellGenerated(kvm) && system.mode == "system" && kvm.mode == "kvm"
    ensures NoRepeats(PackageNames(true, Some(bios), system, kvm).value + [METADATA])
  {
    hide Distinctly, WellGenerated, DirectoryNames, BiosNames, BiosApart, Apart;
    var start := [QEMU_IMG] + BiosNames(bios);
    assert bios[..|bios|] == bios;
    var used := BiosDistinct(bios, |bios|);
    var first := DirectoryDistinct(system, start, used);
    var names := DirectoryNames(system, start).value;
    var second := DirectoryDistinct(kvm, names, first);
    AddItem(DirectoryNames(kvm, names).value, second, Listing);
    OnlyNames(DirectoryNames(kvm, names).value + [ArcOf(Listing)], second + {Listing});
  }

  lemma OnlyNames(names: seq<string>, used: set<Item>)
    requires Distinctly(names, used)
    ensures NoRepeats(names)
  {
  }

  // ---- When a name is shipped twice ----

  lemma EntryBlock(dir: Directory, before: seq<string>, e: Entry)
    requires EntryNames(dir, before, e).Some?
    ensures var added := EntryNames(dir, before, e).value;
      && IncludeArc(e.header) in added
      && (Given(e.envHeader).Some? ==> IncludeArc(e.envHeader.value) in added)
  {
    hide IncludeArc, LibraryArc, ModuleArc;
    var added, env := EntryNames(dir, before, e).value, Given(e.envHeader);
    assert added[1] == IncludeArc(e.header);
    if env.Some? {
      assert added[2] == IncludeArc(env.value);
    }
  }

  /** A name that two entries add is there twice. */
  lemma {:induction false} AddedTwice(dir: Directory, before: seq<string>, n: nat, i: nat, j: nat, name: string)
    requires dir.manifest.Some? && i < j < n <= |dir.manifest.value| && EntriesNames(dir, before, n).Some?
    requires EntriesNames(dir, before, i).Some? && EntriesNames(dir, before, j).Some?
    requires var e := dir.manifest.value[i];
      EntryNames(dir, EntriesNames(dir, before, i).value, e).Some? &&
      name in EntryNames(dir, EntriesNames(dir, before, i).value, e).value
    requires var e := dir.manifest.value[j];
      EntryNames(dir, EntriesNames(dir, before, j).value, e).Some? &&
      name in EntryNames(dir, EntriesNames(dir, before, j).value, e).value
    ensures !NoRepeats(EntriesNames(dir, before, n).value)
  {
    hide EntryNames;
    var names := EntriesNames(dir, before, n - 1).value;
    var added := EntryNames(dir, names, dir.manifest.value[n - 1]).value;
    if j < n - 1 {
      AddedTwice(dir, before, n - 1, i, j, name);
      RepeatsKept(names, [], added);
      assert [] + names + added == names + added;
    } else {
      AddedStays(dir, before, i, j, name);
      var k :| 0 <= k < |names| && names[k] == name;
      var l :| 0 <= l < |added| && added[l] == name;
      assert (names + added)[k] == (names + added)[|names| + l];
    }
  }

  lemma {:induction false} AddedStays(dir: Directory, before: seq<string>, i: nat, n: nat, name: string)
    requires dir.manifest.Some? && i < n <= |dir.manifest.value| && EntriesNames(dir, before, n).Some?
    requires EntriesNames(dir, before, i).Some?
    requires var e := dir.manifest.value[i];
      EntryNames(dir, EntriesNames(dir, before, i).value, e).Some? &&
      name in EntryNames(dir, EntriesNames(dir, before, i).value, e).value
    ensures name in EntriesNames(dir, before, n).value
  {
    hide EntryNames;
    if i == n - 1 {
    } else {
      AddedStays(dir, before, i, n - 1, name);
    }
  }

  lemma {:induction false} EarlierNames(dir: Directory, before: seq<string>, i: nat, n: nat)
    requires dir.manifest.Some? && i < n <= |dir.manifest.value| && EntriesNames(dir, before, n).Some?
    ensures EntriesNames(dir, before, i).Some?
    ensures EntryNames(dir, EntriesNames(dir, before, i).value, dir.manifest.value[i]).Some?
  {
    hide EntryNames;
    if i == n - 1 {
    } else {
      EarlierNames(dir, before, i, n - 1);
    }
  }

  /** A name that two entries of a manifest have in common is in the archive twice. */
  lemma CommonName(dir: Directory, before: seq<string>, i: nat, j: nat, name: string)
    requires dir.manifest.Some? && DirectoryNames(dir, before).Some? && i < j < |dir.manifest.value|
    requires forall k :: k == i || k == j ==>
      var e := dir.manifest.value[k];
      name == IncludeArc(e.header) || (Given(e.envHeader).Some? && name == IncludeArc(e.envHeader.value))
    ensures !NoRepeats(DirectoryNames(dir, before).value)
  {
    hide EntryNames, NoRepeats, IncludeArc;
    var start, n := before + [IncludeArc(ManifestName(dir.mode))], |dir.manifest.value|;
    EarlierNames(dir, start, i, n);
    EarlierNames(dir, start, j, n);
    EntryBlock(dir, EntriesNames(dir, start, i).value, dir.manifest.value[i]);
    EntryBlock(dir, EntriesNames(dir, start, j).value, dir.manifest.value[j]);
    AddedTwice(dir, start, n, i, j, name);
  }

  lemma NotApart(dir: Directory, before: seq<string>)
    requires WellGenerated(dir) && !Apart(dir) && DirectoryNames(dir, before).Some?
    ensures !NoRepeats(DirectoryNames(dir, before).value)
  {
    hide NoRepeats, IncludeArc, HeaderName, EnvName, DirectoryNames, EnvHeaderName;
    var entries := dir.manifest.value;
    if !DifferentArches(entries) {
      var i, j :| 0 <= i < j < |entries| && entries[i].arch == entries[j].arch;
      CommonName(dir, before, i, j, IncludeArc(entries[i].header));
    } else {
      var i, j :| 0 <= i < |entries| && 0 <= j < |entries| && Collides(entries[i], entries[j]);
      HeaderNotEnv(dir.mode, dir.mode, entries[i].arch, entries[j].arch);
      NeverShorter(entries[j].arch);
      if i < j {
        CommonName(dir, before, i, j, IncludeArc(entries[i].header));
      } else {
        CommonName(dir, before, j, i, IncludeArc(entries[i].header));
      }
    }
  }

  /** Exactly when a package ships no name twice, whatever manifests the generators wrote: no two files of firmware
      get the same name, and in neither manifest is there an arch twice, or one called like another one renamed. */
  lemma DistinctExactly(bios: seq<BiosFile>, system: Directory, kvm: Directory)
    requires PackageNames(true, Some(bios), system, kvm).Some?
    requires WellGenerated(system) && WellGenerated(kvm) && system.mode == "system" && kvm.mode == "kvm"
    ensures NoRepeats(PackageNames(true, Some(bios), system, kvm).value + [METADATA]) <==>
      BiosApart(bios) && Apart(system) && Apart(kvm)
  {
    hide WellGenerated, DirectoryNames, BiosNames, NoRepeats, METADATA, Apart, Shipped, BiosName;
    var firmware := BiosNames(bios);
    var names := DirectoryNames(system, [QEMU_IMG] + firmware).value;
    var all := DirectoryNames(kvm, names).value;
    DirectoryHolds(system, [QEMU_IMG] + firmware);
    DirectoryHolds(kvm, names);
    if !BiosApart(bios) {
      var i, j :| 0 <= i < j < |bios| && Shipped(bios[i]) && Shipped(bios[j]) && BiosName(bios[i]) == BiosName(bios[j]);
      BiosRepeat(bios, i, j);
      RepeatsKept(firmware, [QEMU_IMG], all[|firmware| + 1..] + [METADATA]);
      assert [QEMU_IMG] + firmware + (all[|firmware| + 1..] + [METADATA]) == all + [METADATA];
    } else if !Apart(system) {
      NotApart(system, [QEMU_IMG] + firmware);
      RepeatsKept(names, [], all[|names|..] + [METADATA]);
      assert [] + names + (all[|names|..] + [METADATA]) == all + [METADATA];
    } else if !Apart(kvm) {
      NotApart(kvm, names);
      RepeatsKept(all, [], [METADATA]);
      assert [] + all + [METADATA] == all + [METADATA];
    } else {
      PackageDistinct(bios, system, kvm);
    }
  }
}
