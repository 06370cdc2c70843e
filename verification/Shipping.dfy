/** From built libraries to the package: the generators' work in a build directory, what it can be packed into, and
    the whole of it from end to end. */
module Shipping {
  import opened Dwarf
  import opened Lists
  import opened Arches
  import opened Package
  import opened Archive
  import opened Naming
  import opened Distinct
  import opened Firmware

  // ---- What the generators write ----

  /** Entries as they are before there are headers for the CPU state. */
  ghost predicate Fresh(mode: string, entries: seq<Entry>) {
    IsMode(mode) && forall i :: 0 <= i < |entries| ==> FreshEntry(mode, entries[i])
  }

  predicate FreshEntry(mode: string, e: Entry) {
    e.target.Some? && e == NewEntry(mode, e.arch, e.target.value)
  }

  /** An arch has one target. */
  ghost predicate OneTarget(entries: seq<Entry>) {
    forall i, j :: 0 <= i < |entries| && 0 <= j < |entries| && entries[i].arch == entries[j].arch ==>
      entries[i].target == entries[j].target
  }

  function ArchesOf(entries: seq<Entry>): seq<string> {
    seq(|entries|, i requires 0 <= i < |entries| => entries[i].arch)
  }

  lemma SystemFresh(arches: seq<string>)
    requires Supported(arches)
    ensures SystemEntries(arches).Some?
    ensures var entries := SystemEntries(arches).value;
      && Fresh("system", entries) && OneTarget(entries) && ArchesOf(entries) == arches && |entries| == |arches|
      && forall i :: 0 <= i < |arches| ==>
           entries[i].library == LibraryOf(arches[i]) && entries[i].target == TargetOf(arches[i])
  {
    hide TargetOf, SystemTarget, VaddrBits;
    forall i | 0 <= i < |arches|
      ensures SystemTarget(arches[i]) == TargetOf(arches[i])
    {
      TablesAgree(arches[i]);
    }
    assert "libqemu-" + "system" + "-" == "libqemu-system-";
  }

  function KvmArches(targets: seq<string>): seq<string> {
    seq(|targets|, i requires 0 <= i < |targets| => WithoutSuffix(targets[i], SOFTMMU))
  }

  lemma KvmFresh(targets: seq<string>)
    requires KvmEntries(targets).Some?
    ensures var entries := KvmEntries(targets).value;
      && Fresh("kvm", entries) && OneTarget(entries) && ArchesOf(entries) == KvmArches(targets)
      && |entries| == |targets| && forall i :: 0 <= i < |targets| ==> entries[i].target == Some(targets[i])
  {
    hide VaddrBits, LibraryName, HeaderName;
    forall i | 0 <= i < |targets|
      ensures targets[i] == WithoutSuffix(targets[i], SOFTMMU) + SOFTMMU
    {
      var n := |targets[i]| - |SOFTMMU|;
      assert targets[i] == targets[i][..n] + targets[i][n..];
    }
  }

  /** The entries that the generators write are as the packaging expects them, renaming included. */
  lemma EntryGenerated(mode: string, e: Entry, compiles: string -> Option<string>)
    requires IsMode(mode) && FreshEntry(mode, e)
    ensures Generated(mode, EnvEntry(compiles, e))
    ensures EnvEntry(compiles, e).envHeader == Some(EnvName(mode, e.arch))
  {
    hide EnvHeaderName, LibraryName, HeaderName, VaddrBits;
    EnvOf(mode, e.arch);
  }

  // ---- No file is written over ----

  lemma {:induction false} HeadersKeep<L, D>(files: Files<L, D>, entries: seq<Entry>, name: string)
    requires forall i :: 0 <= i < |entries| ==> entries[i].header != name
    ensures var after := WithHeaders(files, entries);
      (name in after <==> name in files) && (name in files ==> after[name] == files[name])
  {
    if entries == [] {
    } else {
      HeadersKeep(files, entries[..|entries| - 1], name);
    }
  }

  lemma {:induction false} HeaderThere<L, D>(files: Files<L, D>, entries: seq<Entry>, i: nat)
    requires i < |entries|
    ensures entries[i].header in WithHeaders(files, entries)
  {
    if i == |entries| - 1 {
    } else {
      HeaderThere(files, entries[..|entries| - 1], i);
    }
  }

  lemma {:induction false} RunKeeps<L, D>(generate: L -> Option<D>, files: Files<L, D>, entries: seq<Entry>, name: string)
    requires Generating(generate, files, entries).Some?
    requires name in files || forall i :: 0 <= i < |entries| ==> EnvHeaderName(entries[i].header) != name
    ensures var after := Generating(generate, files, entries).value.files;
      && (name in after <==> name in files)
      && ((forall i :: 0 <= i < |entries| ==> EnvHeaderName(entries[i].header) != name) && name in files ==>
            after[name] == files[name])
  {
    hide EnvHeaderName, FromLibrary, Key;
    if entries == [] {
    } else {
      RunKeeps(generate, files, entries[..|entries| - 1], name);
    }
  }

  /** No library is called like a header. */
  lemma LibraryNoHeader(a: string, b: string, x: string, y: string)
    ensures LibraryName(a, x) != HeaderName(b, y) && LibraryName(a, x) != EnvName(b, y)
    ensures LibraryName(a, x) != ManifestName(b) && LibraryName(a, x) != CffiPackageName(b)
  {
    assert LibraryName(a, x)[0] == 'l' && HeaderName(b, y)[0] == 'q' && EnvName(b, y)[0] == 'q';
    assert ManifestName(b)[0] == 'q' && CffiPackageName(b)[0] == 'p';
  }

  // ---- One header for each target is enough ----

  /** Entries with the same key have libraries that the generator cannot tell apart. */
  ghost predicate KeysShare<L, D>(generate: L -> Option<D>, files: Files<L, D>, entries: seq<Entry>) {
    forall i, j :: 0 <= i < |entries| && 0 <= j < |entries| && Key(entries[i]) == Key(entries[j]) ==>
      FromLibrary(generate, files, entries[i].library) == FromLibrary(generate, files, entries[j].library)
  }

  /** What an entry has is what its own library gives. */
  ghost predicate OwnHeader<L, D>(generate: L -> Option<D>, files: Files<L, D>, run: EnvRun<L, D>, e: Entry) {
    && FromLibrary(generate, files, e.library).Some?
    && Key(e) in run.headers && run.headers[Key(e)] == FromLibrary(generate, files, e.library).value
    && EnvHeaderName(e.header) in run.files
    && run.files[EnvHeaderName(e.header)] == CpuHeader(FromLibrary(generate, files, e.library).value)
  }

  ghost predicate RunOwn<L, D>(generate: L -> Option<D>, files: Files<L, D>, entries: seq<Entry>, n: nat)
    requires n <= |entries|
  {
    var run := Generating(generate, files, entries[..n]);
    && (run.Some? <==> forall i :: 0 <= i < n ==> FromLibrary(generate, files, entries[i].library).Some?)
    && (run.Some? ==>
          && (forall i :: 0 <= i < n ==> OwnHeader(generate, files, run.value, entries[i]))
          && (forall k :: k in run.value.headers ==> exists i :: 0 <= i < n && Key(entries[i]) == k))
  }

  /** Remembering headers by target is sound: although only the first library of each target is read, every entry
      gets the header that its own library gives. */
  lemma {:induction false} MemoIsSound<L, D>(generate: L -> Option<D>, files: Files<L, D>, mode: string,
                                             entries: seq<Entry>, n: nat)
    requires Fresh(mode, entries) && OneTarget(entries) && KeysShare(generate, files, entries) && n <= |entries|
    ensures RunOwn(generate, files, entries, n)
  {
    hide EnvHeaderName, FromLibrary, FreshEntry, OwnHeader;
    if n == 0 {
    } else {
      MemoIsSound(generate, files, mode, entries, n - 1);
      var e := entries[n - 1];
      assert entries[..n][..n - 1] == entries[..n - 1];
      var before := Generating(generate, files, entries[..n - 1]);
      if before.Some? {
        LibraryUntouched(generate, files, mode, entries, n - 1, e);
        if Key(e) in before.value.headers {
          var j :| 0 <= j < n - 1 && Key(entries[j]) == Key(e);
          assert OwnHeader(generate, files, before.value, entries[j]);
          OwnShared(generate, files, before.value, entries[j], e);
        }
        if FromLibrary(generate, files, e.library).Some? {
          NextOwn(generate, files, mode, entries, n);
        }
      }
    }
  }

  lemma OwnShared<L, D>(generate: L -> Option<D>, files: Files<L, D>, run: EnvRun<L, D>, e: Entry, f: Entry)
    requires OwnHeader(generate, files, run, e) && Key(e) == Key(f)
    requires FromLibrary(generate, files, e.library) == FromLibrary(generate, files, f.library)
    ensures FromLibrary(generate, files, f.library) == Some(run.headers[Key(f)])
  {
  }

  lemma LibraryUntouched<L, D>(generate: L -> Option<D>, files: Files<L, D>, mode: string, entries: seq<Entry>, n: nat,
                               e: Entry)
    requires Fresh(mode, entries) && n <= |entries| && e in entries && Generating(generate, files, entries[..n]).Some?
    ensures FromLibrary(generate, Generating(generate, files, entries[..n]).value.files, e.library) ==
            FromLibrary(generate, files, e.library)
  {
    hide EnvHeaderName, LibraryName, HeaderName, EnvName, VaddrBits;
    forall i | 0 <= i < n
      ensures EnvHeaderName(entries[..n][i].header) != e.library
    {
      EnvOf(mode, entries[i].arch);
      LibraryNoHeader(mode, mode, e.arch, entries[i].arch);
    }
    RunKeeps(generate, files, entries[..n], e.library);
  }

  lemma NextOwn<L, D>(generate: L -> Option<D>, files: Files<L, D>, mode: string, entries: seq<Entry>, n: nat)
    requires Fresh(mode, entries) && OneTarget(entries) && KeysShare(generate, files, entries) && 0 < n <= |entries|
    requires RunOwn(generate, files, entries, n - 1) && Generating(generate, files, entries[..n - 1]).Some?
    requires var e, run := entries[n - 1], Generating(generate, files, entries[..n - 1]).value;
      && FromLibrary(generate, files, e.library).Some?
      && FromLibrary(generate, run.files, e.library) == FromLibrary(generate, files, e.library)
      && (Key(e) in run.headers ==> FromLibrary(generate, files, e.library) == Some(run.headers[Key(e)]))
    ensures RunOwn(generate, files, entries, n)
  {
    hide EnvHeaderName, FromLibrary, FreshEntry, OwnHeader, Generating, Key;
    var e, before := entries[n - 1], Generating(generate, files, entries[..n - 1]).value;
    var d := FromLibrary(generate, files, e.library).value;
    RunNext(generate, files, entries, n);
    var run := Generating(generate, files, entries[..n]).value;
    forall i | 0 <= i < n
      ensures OwnHeader(generate, files, run, entries[i])
    {
      if i < n - 1 {
        assert OwnHeader(generate, files, before, entries[i]);
        if EnvHeaderName(entries[i].header) == EnvHeaderName(e.header) {
          SameArch(mode, entries[i], e);
        }
      }
      OwnStays(generate, files, before, run, entries[i], e, d);
    }
    assert Key(entries[n - 1]) == Key(e);
  }

  lemma RunNext<L, D>(generate: L -> Option<D>, files: Files<L, D>, entries: seq<Entry>, n: nat)
    requires 0 < n <= |entries| && Generating(generate, files, entries[..n - 1]).Some?
    requires var e, run := entries[n - 1], Generating(generate, files, entries[..n - 1]).value;
      && FromLibrary(generate, files, e.library).Some?
      && FromLibrary(generate, run.files, e.library) == FromLibrary(generate, files, e.library)
      && (Key(e) in run.headers ==> FromLibrary(generate, files, e.library) == Some(run.headers[Key(e)]))
    ensures
      var e, run := entries[n - 1], Generating(generate, files, entries[..n - 1]).value;
      var d := FromLibrary(generate, files, e.library).value;
      Generating(generate, files, entries[..n]) ==
        Some(EnvRun(run.files[EnvHeaderName(e.header) := CpuHeader(d)], run.headers[Key(e) := d]))
  {
    hide EnvHeaderName, FromLibrary, Key, Generating;
    EntryDone(generate, files, x => None, entries, n - 1);
  }

  lemma OwnStays<L, D>(generate: L -> Option<D>, files: Files<L, D>, before: EnvRun<L, D>, run: EnvRun<L, D>,
                       f: Entry, e: Entry, d: D)
    requires FromLibrary(generate, files, e.library) == Some(d)
    requires run == EnvRun(before.files[EnvHeaderName(e.header) := CpuHeader(d)], before.headers[Key(e) := d])
    requires f == e || OwnHeader(generate, files, before, f)
    requires Key(f) == Key(e) || EnvHeaderName(f.header) == EnvHeaderName(e.header) ==>
      FromLibrary(generate, files, f.library) == Some(d)
    ensures OwnHeader(generate, files, run, f)
  {
    hide EnvHeaderName, FromLibrary, Key;
  }

  lemma SameArch(mode: string, e: Entry, f: Entry)
    requires IsMode(mode) && FreshEntry(mode, e) && FreshEntry(mode, f)
    requires EnvHeaderName(e.header) == EnvHeaderName(f.header)
    ensures e.arch == f.arch && (e.target == f.target ==> Key(e) == Key(f))
  {
    hide EnvHeaderName, HeaderName, EnvName, VaddrBits, LibraryName;
    EnvOf(mode, e.arch);
    EnvOf(mode, f.arch);
    SameEnv(mode, mode, e.arch, f.arch);
  }

  // ---- A build directory ----

  /** Everything that the manifest names is there. */
  ghost predicate Complete(dir: Directory, mode: string, entries: seq<Entry>, compiles: string -> Option<string>) {
    && dir.mode == mode && dir.manifest == Some(WithEnv(compiles, entries))
    && (forall i :: 0 <= i < |entries| ==>
          && entries[i].library in dir.files && entries[i].header in dir.files
          && EnvHeaderName(entries[i].header) in dir.files)
    && Compiled(compiles, EntryTargets(entries)) <= dir.modules
  }

  /** What the generators leave of the files of a directory. */
  function AfterCffi<L, D>(files: Files<L, D>, mode: string, entries: seq<Entry>): Files<L, D> {
    WithHeaders(files, entries)[ManifestName(mode) := Json]
      [CffiPackageName(mode) := Tarball(HeaderMembers(entries) + [BaseName(ManifestName(mode))])]
  }

  lemma LibraryKept<L, D>(generate: L -> Option<D>, files: Files<L, D>, mode: string, entries: seq<Entry>, n: nat, e: Entry)
    requires Fresh(mode, entries) && n <= |entries| && e in entries
    ensures e.library in WithHeaders(files, entries[..n]) <==> e.library in files
    ensures var after := AfterCffi(files, mode, entries);
      && (e.library in after <==> e.library in files)
      && (e.library in files ==> after[e.library] == files[e.library])
      && FromLibrary(generate, after, e.library) == FromLibrary(generate, files, e.library)
  {
    hide LibraryName, HeaderName, EnvName, VaddrBits, ManifestName, CffiPackageName, BaseName;
    forall i | 0 <= i < |entries|
      ensures entries[i].header != e.library
      ensures ManifestName(mode) != e.library && CffiPackageName(mode) != e.library
    {
      LibraryNoHeader(mode, mode, e.arch, entries[i].arch);
    }
    assert forall i :: 0 <= i < n ==> entries[..n][i] == entries[i];
    HeadersKeep(files, entries[..n], e.library);
    HeadersKeep(files, entries, e.library);
  }

  /** What the libraries of all entries give. */
  ghost predicate AllGenerate<L, D>(generate: L -> Option<D>, files: Files<L, D>, entries: seq<Entry>) {
    forall i :: 0 <= i < |entries| ==> FromLibrary(generate, files, entries[i].library).Some?
  }

  /** Each entry has the header that its own library gives, and that library. */
  ghost predicate OwnFiles<L, D>(generate: L -> Option<D>, files: Files<L, D>, after: Files<L, D>, mode: string, e: Entry) {
    && FromLibrary(generate, files, e.library).Some?
    && EnvName(mode, e.arch) in after
    && after[EnvName(mode, e.arch)] == CpuHeader(FromLibrary(generate, files, e.library).value)
    && e.library in files && e.library in after && after[e.library] == files[e.library]
  }

  /** Entries with one arch have one address width. */
  lemma {:induction false} HeaderContent<L, D>(files: Files<L, D>, mode: string, entries: seq<Entry>, n: nat, i: nat)
    requires Fresh(mode, entries) && i < n <= |entries|
    ensures entries[i].header in WithHeaders(files, entries[..n])
    ensures WithHeaders(files, entries[..n])[entries[i].header] == CffiHeader(entries[i].vaddrBits)
  {
    hide VaddrBits, LibraryName, HeaderName;
    assert entries[..n][..n - 1] == entries[..n - 1];
    if i == n - 1 {
    } else {
      HeaderContent(files, mode, entries, n - 1, i);
      assert FreshEntry(mode, entries[i]) && FreshEntry(mode, entries[n - 1]);
      if entries[i].header == entries[n - 1].header {
        SameHeader(mode, mode, entries[i].arch, entries[n - 1].arch);
      }
    }
  }

  lemma HeaderNoOther(mode: string, arch: string)
    ensures HeaderName(mode, arch) != ManifestName(mode) && HeaderName(mode, arch) != CffiPackageName(mode)
  {
    LastCharacters(mode, arch);
    assert HeaderName(mode, arch)[0] == 'q' && CffiPackageName(mode)[0] == 'p';
  }

  /** No arch is called like another one renamed, with "_env" behind it. */
  ghost predicate NoneRenamed(arches: seq<string>) {
    forall i, j :: 0 <= i < |arches| && 0 <= j < |arches| ==> arches[i] != EnvHeaderName(arches[j]) + "_env"
  }

  /** A header with its address width is written over only when its arch is called like another one renamed. */
  lemma WidthKept<L, D>(generate: L -> Option<D>, files: Files<L, D>, mode: string, entries: seq<Entry>, i: nat)
    requires Fresh(mode, entries) && NoneRenamed(ArchesOf(entries)) && i < |entries|
    requires Generating(generate, AfterCffi(files, mode, entries), entries).Some?
    ensures var after := Generating(generate, AfterCffi(files, mode, entries), entries).value.files;
      entries[i].header in after && after[entries[i].header] == CffiHeader(entries[i].vaddrBits)
  {
    hide FromLibrary, Generating, EnvHeaderName, HeaderName, EnvName, LibraryName, WithHeaders, VaddrBits, BaseName,
      ManifestName, CffiPackageName;
    var e, start := entries[i], AfterCffi(files, mode, entries);
    HeaderContent(files, mode, entries, |entries|, i);
    assert entries[..|entries|] == entries;
    HeaderNoOther(mode, e.arch);
    assert start[e.header] == CffiHeader(e.vaddrBits);
    forall k | 0 <= k < |entries|
      ensures EnvHeaderName(entries[k].header) != e.header
    {
      EnvOf(mode, entries[k].arch);
      HeaderNotEnv(mode, mode, e.arch, entries[k].arch);
      assert ArchesOf(entries)[i] == e.arch && ArchesOf(entries)[k] == entries[k].arch;
    }
    RunKeeps(generate, start, entries, e.header);
  }

  /** The header of an entry has its address width. */
  ghost predicate OwnWidth<L, D>(after: Files<L, D>, e: Entry) {
    e.header in after && after[e.header] == CffiHeader(e.vaddrBits)
  }

  lemma AllWritten<L, D>(generate: L -> Option<D>, files: Files<L, D>, mode: string, entries: seq<Entry>)
    requires Fresh(mode, entries) && OneTarget(entries) && KeysShare(generate, files, entries)
    ensures
      var run := Generating(generate, AfterCffi(files, mode, entries), entries);
      && (run.Some? <==> AllGenerate(generate, files, entries))
      && (run.Some? ==> forall i :: 0 <= i < |entries| ==>
            && OwnFiles(generate, files, run.value.files, mode, entries[i])
            && entries[i].header in run.value.files && EnvHeaderName(entries[i].header) in run.value.files)
  {
    hide FromLibrary, FreshEntry, AfterCffi, WithHeaders, EnvHeaderName;
    var start := AfterCffi(files, mode, entries);
    forall i | 0 <= i < |entries|
      ensures FromLibrary(generate, start, entries[i].library) == FromLibrary(generate, files, entries[i].library)
    {
      LibraryKept(generate, files, mode, entries, |entries|, entries[i]);
    }
    MemoIsSound(generate, start, mode, entries, |entries|);
    assert entries[..|entries|] == entries;
    var run := Generating(generate, start, entries);
    if run.Some? {
      forall i | 0 <= i < |entries|
        ensures OwnFiles(generate, files, run.value.files, mode, entries[i])
        ensures entries[i].header in run.value.files && EnvHeaderName(entries[i].header) in run.value.files
      {
        WrittenFor(generate, files, mode, entries, run.value, i);
      }
    }
  }

  lemma WrittenFor<L, D>(generate: L -> Option<D>, files: Files<L, D>, mode: string, entries: seq<Entry>, run: EnvRun<L, D>,
                         i: nat)
    requires Fresh(mode, entries) && i < |entries|
    requires Generating(generate, AfterCffi(files, mode, entries), entries) == Some(run)
    requires OwnHeader(generate, AfterCffi(files, mode, entries), run, entries[i])
    ensures OwnFiles(generate, files, run.files, mode, entries[i])
    ensures entries[i].header in run.files && EnvHeaderName(entries[i].header) in run.files
  {
    hide FromLibrary, Generating, EnvHeaderName, HeaderName, EnvName, LibraryName, WithHeaders, VaddrBits, BaseName;
    var e, start := entries[i], AfterCffi(files, mode, entries);
    EnvOf(mode, e.arch);
    LibraryKept(generate, files, mode, entries, |entries|, e);
    HeaderThere(files, entries, i);
    RunKeeps(generate, start, entries, e.header);
    LibraryThere(generate, files, e);
    forall k | 0 <= k < |entries|
      ensures EnvHeaderName(entries[k].header) != e.library
    {
      EnvOf(mode, entries[k].arch);
      LibraryNoHeader(mode, mode, e.arch, entries[k].arch);
    }
    RunKeeps(generate, start, entries, e.library);
  }

  lemma LibraryThere<L, D>(generate: L -> Option<D>, files: Files<L, D>, e: Entry)
    requires FromLibrary(generate, files, e.library).Some?
    ensures e.library in files
  {
  }

  /** Both generators in a directory with these files. */
  method GenerateIn<L, D>(mode: string, files: Files<L, D>, entries: seq<Entry>, generate: L -> Option<D>,
                          compiles: string -> Option<string>)
      returns (dir: Option<Directory>, after: Files<L, D>)
    requires Fresh(mode, entries) && OneTarget(entries) && KeysShare(generate, files, entries)
    ensures dir.Some? <==> AllGenerate(generate, files, entries)
    ensures dir.Some? ==>
      && Complete(dir.value, mode, entries, compiles) && dir.value.mode == mode && dir.value.files == after.Keys
      && (forall i :: 0 <= i < |entries| ==> OwnFiles(generate, files, after, mode, entries[i]))
      && (NoneRenamed(ArchesOf(entries)) ==> forall i :: 0 <= i < |entries| ==> OwnWidth(after, entries[i]))
  {
    hide NoneRenamed, ArchesOf;
    hide Fresh, OneTarget, KeysShare, FromLibrary, EntryTargets, WithEnv, Compiled, EnvHeaderName, HeaderMembers,
      Generating, EnvName, BaseName;
    AllWritten(generate, files, mode, entries);
    forall i | 0 <= i < |entries|
      ensures entries[i].library in WithHeaders(files, entries[..i]) <==> entries[i].library in files
      ensures FromLibrary(generate, files, entries[i].library).Some? ==> entries[i].library in files
    {
      LibraryKept(generate, files, mode, entries, i, entries[i]);
      if FromLibrary(generate, files, entries[i].library).Some? {
        LibraryThere(generate, files, entries[i]);
      }
    }
    var tree := new BuildTree(files);
    var ok := tree.GenerateCffi(mode, entries);
    if !ok {
      return None, files;
    }
    assert tree.files == AfterCffi(files, mode, entries);
    ok := tree.GenerateEnv(generate, compiles);
    after := tree.files;
    if !ok {
      return None, after;
    }
    if NoneRenamed(ArchesOf(entries)) {
      forall i | 0 <= i < |entries|
        ensures OwnWidth(after, entries[i])
      {
        WidthKept(generate, files, mode, entries, i);
      }
    }
    dir := Some(Directory(mode, after.Keys, tree.modules, tree.manifest));
  }

  // ---- Packing ----

  /** A directory in which the generators ran for these entries, or did not run at all. */
  ghost predicate Ready(dir: Directory, mode: string, entries: Option<seq<Entry>>, compiles: string -> Option<string>) {
    && IsMode(mode) && dir.mode == mode
    && match entries
       case None => dir.manifest.None?
       case Some(es) => Fresh(mode, es) && Complete(dir, mode, es, compiles)
  }

  predicate Present(dir: Directory, e: Entry) {
    && e.library in dir.files && e.header in dir.files
    && (Given(e.envHeader).Some? ==> e.envHeader.value in dir.files)
    && (Given(e.envModule).Some? ==> e.envModule.value in dir.modules)
  }

  /** A directory that holds everything its manifest names can be packed. */
  lemma {:induction false} CanPack(dir: Directory, before: seq<string>, n: nat)
    requires dir.manifest.Some? && n <= |dir.manifest.value|
    requires forall i :: 0 <= i < n ==> Present(dir, dir.manifest.value[i])
    ensures EntriesNames(dir, before, n).Some?
  {
    hide LibraryArc, IncludeArc, ModuleArc;
    if n == 0 {
    } else {
      CanPack(dir, before, n - 1);
      assert Present(dir, dir.manifest.value[n - 1]);
    }
  }

  lemma {:induction false} ModuleCompiled(compiles: string -> Option<string>, targets: seq<string>, t: string)
    requires t in targets && compiles(t).Some?
    ensures compiles(t).value in Compiled(compiles, targets)
  {
    var n := |targets| - 1;
    if t == targets[n] {
    } else {
      ModuleCompiled(compiles, targets[..n], t);
    }
  }

  lemma AllPresent(dir: Directory, mode: string, entries: seq<Entry>, compiles: string -> Option<string>, i: nat)
    requires Fresh(mode, entries) && Complete(dir, mode, entries, compiles) && i < |entries|
    ensures Present(dir, dir.manifest.value[i])
  {
    hide EnvHeaderName, EntryTargets, Compiled, LibraryName, HeaderName, VaddrBits;
    var key := Key(entries[i]);
    EachTargetOnce(entries);
    assert key in EntryTargets(entries);
    if compiles(key).Some? {
      ModuleCompiled(compiles, EntryTargets(entries), key);
    }
  }

  /** Different arches, and none called like another one renamed with "_env" behind it. */
  ghost predicate ArchesApart(arches: seq<string>) {
    NoRepeats(arches) && NoneRenamed(arches)
  }

  lemma ManifestApart(mode: string, entries: seq<Entry>, compiles: string -> Option<string>)
    requires Fresh(mode, entries)
    ensures EntriesApart(WithEnv(compiles, entries)) <==> ArchesApart(ArchesOf(entries))
  {
    hide EnvHeaderName, FreshEntry, EnvEntry, Generated;
    var manifest, arches := WithEnv(compiles, entries), ArchesOf(entries);
    forall i | 0 <= i < |entries|
      ensures manifest[i].arch == arches[i] && Given(manifest[i].envHeader).Some?
    {
      EntryGenerated(mode, entries[i], compiles);
      EnvEntryIs(compiles, entries[i]);
    }
    forall i, j | 0 <= i < |entries| && 0 <= j < |entries|
      ensures Collides(manifest[i], manifest[j]) <==> arches[i] == EnvHeaderName(arches[j]) + "_env"
    {
    }
  }

  lemma ReadyGenerated(dir: Directory, mode: string, entries: Option<seq<Entry>>, compiles: string -> Option<string>)
    requires Ready(dir, mode, entries, compiles)
    ensures WellGenerated(dir)
    ensures Apart(dir) <==> (entries.Some? ==> ArchesApart(ArchesOf(entries.value)))
    ensures forall before :: DirectoryNames(dir, before).Some?
  {
    hide EntriesApart, ArchesApart, FreshEntry, EnvEntry, Generated, EnvHeaderName, EntryTargets, Compiled, EntriesNames,
      IncludeArc, ManifestName;
    if entries.Some? {
      ManifestApart(mode, entries.value, compiles);
      forall i | 0 <= i < |entries.value|
        ensures Generated(mode, dir.manifest.value[i]) && Present(dir, dir.manifest.value[i])
      {
        EntryGenerated(mode, entries.value[i], compiles);
        AllPresent(dir, mode, entries.value, compiles, i);
      }
      forall before
        ensures DirectoryNames(dir, before).Some?
      {
        CanPack(dir, before + [IncludeArc(ManifestName(dir.mode))], |dir.manifest.value|);
      }
    }
  }

  /** What the generators leave can be packed, and exactly when that ships no name twice. */
  lemma ReadyPacks(bios: seq<BiosFile>, system: Directory, kvm: Directory,
                   systemEntries: Option<seq<Entry>>, kvmEntries: Option<seq<Entry>>,
                   systemCompiles: string -> Option<string>, kvmCompiles: string -> Option<string>)
    requires Ready(system, "system", systemEntries, systemCompiles) && Ready(kvm, "kvm", kvmEntries, kvmCompiles)
    ensures PackageNames(true, Some(bios), system, kvm).Some?
    ensures NoRepeats(PackageNames(true, Some(bios), system, kvm).value + [METADATA]) <==>
      && BiosApart(bios)
      && (systemEntries.Some? ==> ArchesApart(ArchesOf(systemEntries.value)))
      && (kvmEntries.Some? ==> ArchesApart(ArchesOf(kvmEntries.value)))
  {
    hide DirectoryNames, Apart, ArchesApart, WellGenerated, BiosApart, NoRepeats, Fresh, Complete;
    ReadyGenerated(system, "system", systemEntries, systemCompiles);
    ReadyGenerated(kvm, "kvm", kvmEntries, kvmCompiles);
    DistinctExactly(bios, system, kvm);
  }

  /** Supported arches are never called like another one renamed. */
  lemma SupportedApart(arches: seq<string>)
    requires Supported(arches)
    ensures NoneRenamed(arches)
    ensures ArchesApart(arches) <==> NoRepeats(arches)
  {
    hide EnvHeaderName, StemOf;
    forall i, j | 0 <= i < |arches| && 0 <= j < |arches|
      ensures arches[i] != EnvHeaderName(arches[j]) + "_env"
    {
      NoEnvEnding(arches[i]);
      var name := EnvHeaderName(arches[j]);
      assert (name + "_env")[|name|..] == "_env";
    }
  }

  lemma NoEnvEnding(arch: string)
    requires StemOf(arch).Some?
    ensures !EndsWith(arch, "_env")
  {
  }

  // ---- Names that are shipped twice ----

  /** Whatever else is packed, a name is shipped twice for KVM targets that are not apart. */
  lemma ShippedTwice(targets: seq<string>, bios: seq<BiosFile>, system: Directory, systemEntries: Option<seq<Entry>>,
                     systemCompiles: string -> Option<string>, kvm: Directory, kvmCompiles: string -> Option<string>)
    requires Ready(system, "system", systemEntries, systemCompiles)
    requires KvmEntries(targets).Some? && Ready(kvm, "kvm", KvmEntries(targets), kvmCompiles)
    ensures PackageNames(true, Some(bios), system, kvm).Some?
    ensures !ArchesApart(KvmArches(targets)) ==> !NoRepeats(PackageNames(true, Some(bios), system, kvm).value + [METADATA])
  {
    hide Ready, ArchesApart, BiosApart, NoRepeats, KvmEntries, KvmArches;
    KvmFresh(targets);
    ReadyPacks(bios, system, kvm, systemEntries, KvmEntries(targets), systemCompiles, kvmCompiles);
  }

  /** KVM targets may have any name: of these two the header of the second is the header for the CPU state of the
      first. */
  lemma ConfusedTargets(bios: seq<BiosFile>, system: Directory, systemEntries: Option<seq<Entry>>,
                        systemCompiles: string -> Option<string>, kvm: Directory, kvmCompiles: string -> Option<string>)
    requires Ready(system, "system", systemEntries, systemCompiles)
    requires Ready(kvm, "kvm", KvmEntries(["x-softmmu", "x_env-softmmu"]), kvmCompiles)
    ensures KvmEntries(["x-softmmu", "x_env-softmmu"]).Some?
    ensures PackageNames(true, Some(bios), system, kvm).Some?
    ensures !NoRepeats(PackageNames(true, Some(bios), system, kvm).value + [METADATA])
  {
    hide Ready, NoRepeats;
    var targets := ["x-softmmu", "x_env-softmmu"];
    assert WithoutSuffix(targets[0], SOFTMMU) == "x" && WithoutSuffix(targets[1], SOFTMMU) == "x_env";
    assert KvmArches(targets)[1] == EnvHeaderName(KvmArches(targets)[0]) + "_env";
    assert !ArchesApart(KvmArches(targets));
    ShippedTwice(targets, bios, system, systemEntries, systemCompiles, kvm, kvmCompiles);
  }

  /** Neither of these two arches is the other one with "_env" behind it, but ".h" is renamed within a name as well. */
  lemma ConfusedWithin(bios: seq<BiosFile>, system: Directory, systemEntries: Option<seq<Entry>>,
                       systemCompiles: string -> Option<string>, kvm: Directory, kvmCompiles: string -> Option<string>)
    requires Ready(system, "system", systemEntries, systemCompiles)
    requires Ready(kvm, "kvm", KvmEntries(["x.h-softmmu", "x_env.h_env-softmmu"]), kvmCompiles)
    ensures KvmEntries(["x.h-softmmu", "x_env.h_env-softmmu"]).Some?
    ensures PackageNames(true, Some(bios), system, kvm).Some?
    ensures !NoRepeats(PackageNames(true, Some(bios), system, kvm).value + [METADATA])
  {
    hide Ready, NoRepeats, EnvHeaderName;
    var targets := ["x.h-softmmu", "x_env.h_env-softmmu"];
    assert WithoutSuffix(targets[0], SOFTMMU) == "x.h" && WithoutSuffix(targets[1], SOFTMMU) == "x_env.h_env";
    RenamedEnd("x");
    RenamedAfter("x", "");
    Renamed("");
    assert "x" + "" == "x" && "x" + ".h" == "x.h";
    assert KvmArches(targets)[1] == EnvHeaderName(KvmArches(targets)[0]) + "_env";
    assert !ArchesApart(KvmArches(targets));
    ShippedTwice(targets, bios, system, systemEntries, systemCompiles, kvm, kvmCompiles);
  }

  /** A list that names an arch twice. */
  lemma ArchTwice(bios: seq<BiosFile>, system: Directory, systemCompiles: string -> Option<string>,
                  kvm: Directory, kvmEntries: Option<seq<Entry>>, kvmCompiles: string -> Option<string>)
    requires Ready(system, "system", SystemEntries(["arm", "arm"]), systemCompiles)
    requires Ready(kvm, "kvm", kvmEntries, kvmCompiles)
    ensures SystemEntries(["arm", "arm"]).Some?
    ensures PackageNames(true, Some(bios), system, kvm).Some?
    ensures !NoRepeats(PackageNames(true, Some(bios), system, kvm).value + [METADATA])
  {
    hide Ready, BiosApart;
    var arches := ["arm", "arm"];
    SystemFresh(arches);
    assert arches[0] == arches[1];
    ReadyPacks(bios, system, kvm, SystemEntries(arches), kvmEntries, systemCompiles, kvmCompiles);
  }

  // ---- The whole build ----

  /** The library of every arch's target is there, and can be generated from. */
  ghost predicate SystemBuilt<L, D>(generate: L -> Option<D>, files: Files<L, D>, arches: seq<string>) {
    forall i :: 0 <= i < |arches| ==>
      TargetOf(arches[i]).Some? && FromLibrary(generate, files, SourceOf(TargetOf(arches[i]).value)).Some?
  }

  ghost predicate KvmBuilt<L, D>(generate: L -> Option<D>, files: Files<L, D>, targets: seq<string>) {
    KvmEntries(targets).Some? && AllGenerate(generate, files, KvmEntries(targets).value)
  }

  /** An arch has the library of its own target, and the header that this library gives. */
  ghost predicate ShipsOwn<L, D>(generate: L -> Option<D>, files: Files<L, D>, after: Files<L, D>, arch: string) {
    && TargetOf(arch).Some?
    && var source := SourceOf(TargetOf(arch).value);
       && source in files && LibraryOf(arch) in after && after[LibraryOf(arch)] == files[source]
       && FromLibrary(generate, files, source).Some? && EnvName("system", arch) in after
       && after[EnvName("system", arch)] == CpuHeader(FromLibrary(generate, files, source).value)
       && HeaderName("system", arch) in after
       && after[HeaderName("system", arch)] == CffiHeader(if Is32Bit(TargetOf(arch).value) then 32 else 64)
  }

  /** After staging, an arch's library gives what its target's library gave. */
  lemma StagedGives<L, D>(generate: L -> Option<D>, files: Files<L, D>, arches: seq<string>, i: nat)
    requires Staged(files, arches).Some? && i < |arches|
    ensures TargetOf(arches[i]).Some?
    ensures var source, after := SourceOf(TargetOf(arches[i]).value), Staged(files, arches).value;
      FromLibrary(generate, after, LibraryOf(arches[i])) == FromLibrary(generate, files, source)
  {
    hide TargetOf, SourceOf, LibraryOf, Staged;
    StagingIsSound(files, arches);
    assert Buildable(files, arches[i]);
    assert OwnLibrary(files, Staged(files, arches).value, arches[i]);
  }

  lemma StagedShares<L, D>(generate: L -> Option<D>, files: Files<L, D>, arches: seq<string>)
    requires Staged(files, arches).Some?
    ensures Supported(arches) && SystemEntries(arches).Some?
    ensures var entries, after := SystemEntries(arches).value, Staged(files, arches).value;
      && KeysShare(generate, after, entries)
      && (AllGenerate(generate, after, entries) <==> SystemBuilt(generate, files, arches))
  {
    hide TargetOf, SourceOf, LibraryOf, Staged, FromLibrary;
    forall i | 0 <= i < |arches|
      ensures TargetOf(arches[i]).Some?
      ensures var source, after := SourceOf(TargetOf(arches[i]).value), Staged(files, arches).value;
        FromLibrary(generate, after, LibraryOf(arches[i])) == FromLibrary(generate, files, source)
    {
      StagedGives(generate, files, arches, i);
    }
    SystemFresh(arches);
  }

  lemma BuiltIsStaged<L, D>(generate: L -> Option<D>, files: Files<L, D>, arches: seq<string>)
    requires SystemBuilt(generate, files, arches)
    ensures Staged(files, arches).Some?
  {
    hide TargetOf, SourceOf, LibraryOf, Staged;
    StagingIsSound(files, arches);
  }

  /** Staging and generators for the system arches. */
  method BuildSystem<L, D>(files: Files<L, D>, arches: seq<string>, generate: L -> Option<D>,
                           compiles: string -> Option<string>)
      returns (dir: Option<Directory>, after: Files<L, D>)
    ensures dir.Some? <==> SystemBuilt(generate, files, arches)
    ensures dir.Some? ==>
      && Supported(arches) && SystemEntries(arches).Some? && dir.value.files == after.Keys
      && Ready(dir.value, "system", SystemEntries(arches), compiles)
      && forall i :: 0 <= i < |arches| ==> ShipsOwn(generate, files, after, arches[i])
  {
    hide TargetOf, SourceOf, LibraryOf, Staged, Complete, Fresh, OneTarget, KeysShare, AllGenerate, SystemBuilt, ShipsOwn,
      SystemEntries, OwnFiles, OwnWidth, NoneRenamed;
    if SystemBuilt(generate, files, arches) {
      BuiltIsStaged(generate, files, arches);
    }
    var build := new BuildDir(files);
    var ok := build.StageSystemLibAliases(arches);
    if !ok {
      return None, files;
    }
    StagedShares(generate, files, arches);
    SystemFresh(arches);
    var entries := SystemEntries(arches).value;
    dir, after := GenerateIn("system", build.files, entries, generate, compiles);
    if dir.Some? {
      SupportedApart(arches);
      forall i | 0 <= i < |arches|
        ensures ShipsOwn(generate, files, after, arches[i])
      {
        assert OwnFiles(generate, build.files, after, "system", entries[i]) && OwnWidth(after, entries[i]);
        OwnAfterStaging(generate, files, arches, after, i);
      }
    }
  }

  lemma OwnAfterStaging<L, D>(generate: L -> Option<D>, files: Files<L, D>, arches: seq<string>, after: Files<L, D>, i: nat)
    requires Staged(files, arches).Some? && Supported(arches) && i < |arches| && SystemEntries(arches).Some?
    requires i < |SystemEntries(arches).value|
    requires OwnFiles(generate, Staged(files, arches).value, after, "system", SystemEntries(arches).value[i])
    requires OwnWidth(after, SystemEntries(arches).value[i])
    ensures ShipsOwn(generate, files, after, arches[i])
  {
    hide TargetOf, SourceOf, LibraryOf, Staged, EnvName, HeaderName, VaddrBits, Is32Bit, LibraryName;
    SystemFresh(arches);
    assert FreshEntry("system", SystemEntries(arches).value[i]);
    WidthOfTarget(arches[i]);
    assert ArchesOf(SystemEntries(arches).value)[i] == arches[i];
    StagedGives(generate, files, arches, i);
    StagingIsSound(files, arches);
    assert OwnLibrary(files, Staged(files, arches).value, arches[i]);
  }

  /** Generators for the KVM targets, if there are any. */
  method BuildKvm<L, D>(files: Files<L, D>, targets: Option<seq<string>>, generate: L -> Option<D>,
                        compiles: string -> Option<string>)
      returns (dir: Option<Directory>, after: Files<L, D>)
    ensures dir.Some? <==> (targets.Some? ==> KvmBuilt(generate, files, targets.value))
    ensures dir.Some? && targets.None? ==> Ready(dir.value, "kvm", None, compiles)
    ensures dir.Some? && targets.Some? ==>
      && dir.value.files == after.Keys && Ready(dir.value, "kvm", KvmEntries(targets.value), compiles)
      && forall e :: e in KvmEntries(targets.value).value ==> OwnFiles(generate, files, after, "kvm", e)
  {
    hide Complete, Fresh, OneTarget, KeysShare, AllGenerate, KvmEntries, OwnFiles;
    if targets.None? {
      return Some(Directory("kvm", {}, {}, None)), files;
    }
    if KvmEntries(targets.value).None? {
      return None, files;
    }
    var entries := KvmEntries(targets.value).value;
    KvmFresh(targets.value);
    KvmShares(generate, files, entries);
    dir, after := GenerateIn("kvm", files, entries, generate, compiles);
  }

  lemma KvmShares<L, D>(generate: L -> Option<D>, files: Files<L, D>, entries: seq<Entry>)
    requires Fresh("kvm", entries) && exists targets :: KvmEntries(targets) == Some(entries)
    ensures KeysShare(generate, files, entries)
  {
    hide FromLibrary, VaddrBits;
    var targets :| KvmEntries(targets) == Some(entries);
    KvmFresh(targets);
  }

  /** build.sh after the libraries are built, for system arches and, if there are any, KVM targets.  The package is
      written exactly when image, firmware and every library are there and can be generated from.  It then lists
      itself, what every manifest names is in it, every arch and target ships its own library and the header that
      this library gives, and no name is there twice exactly when arches, targets and firmware are apart. */
  method Ship<L, D>(files: Files<L, D>, arches: seq<string>, kvmFiles: Files<L, D>, kvmTargets: Option<seq<string>>,
                    generate: L -> Option<D>, systemCompiles: string -> Option<string>,
                    kvmCompiles: string -> Option<string>, hasImg: bool, bios: Option<seq<BiosFile>>)
      returns (archive: Option<seq<string>>, system: Files<L, D>, kvm: Files<L, D>)
    ensures archive.Some? <==>
      && hasImg && bios.Some? && SystemBuilt(generate, files, arches)
      && (kvmTargets.Some? ==> KvmBuilt(generate, kvmFiles, kvmTargets.value))
    ensures archive.Some? ==>
      && (exists a: Directory, b: Directory ::
            && a.files == system.Keys && Ready(a, "system", SystemEntries(arches), systemCompiles)
            && (kvmTargets.Some? ==> b.files == kvm.Keys)
            && Ready(b, "kvm", if kvmTargets.Some? then KvmEntries(kvmTargets.value) else None, kvmCompiles)
            && ShippedFrom(archive.value, bios.value, a, b))
      && (forall name :: name in archive.value <==>
            Belongs(bios.value, arches, systemCompiles, kvmTargets, kvmCompiles, name))
      && (forall i :: 0 <= i < |arches| ==> ShipsOwn(generate, files, system, arches[i]))
      && (kvmTargets.Some? ==>
            forall e :: e in KvmEntries(kvmTargets.value).value ==> OwnFiles(generate, kvmFiles, kvm, "kvm", e))
      && (NoRepeats(archive.value) <==>
            && BiosApart(bios.value) && NoRepeats(arches)
            && (kvmTargets.Some? ==> ArchesApart(KvmArches(kvmTargets.value))))
  {
    hide SystemBuilt, AllGenerate, Ready, ShipsOwn, OwnFiles, NoRepeats, BiosApart, ArchesApart, KvmArches, SystemEntries,
      PackageNames, Supported, HoldsAll, Belongs, KvmEntries;
    archive, kvm := None, kvmFiles;
    var systemDir: Option<Directory>;
    systemDir, system := BuildSystem(files, arches, generate, systemCompiles);
    if systemDir.None? {
      return;
    }
    var kvmDir: Option<Directory>;
    kvmDir, kvm := BuildKvm(kvmFiles, kvmTargets, generate, kvmCompiles);
    if kvmDir.None? {
      return;
    }
    var packager := new Packager();
    var ok := packager.Pack(hasImg, bios, systemDir.value, kvmDir.value);
    NothingWithout(hasImg, bios, systemDir.value, kvmDir.value);
    if bios.Some? {
      ReadyPacks(bios.value, systemDir.value, kvmDir.value, SystemEntries(arches),
                 if kvmTargets.Some? then KvmEntries(kvmTargets.value) else None, systemCompiles, kvmCompiles);
    }
    if !ok {
      return;
    }
    SystemFresh(arches);
    SupportedApart(arches);
    if kvmTargets.Some? {
      KvmFresh(kvmTargets.value);
    }
    PackedHolds(bios.value, systemDir.value, kvmDir.value);
    forall name
      ensures name in packager.archive <==> Belongs(bios.value, arches, systemCompiles, kvmTargets, kvmCompiles, name)
    {
      PackageNamed(bios.value, systemDir.value, kvmDir.value, arches, systemCompiles, kvmTargets, kvmCompiles, name);
    }
    archive := Some(packager.archive);
  }

  // ---- What a package holds ----

  /** One of the names that an arch adds, its module being called m. */
  ghost predicate NamedForArch(mode: string, arch: string, m: Option<string>, name: string) {
    || name == "lib/" + ("libqemu-" + mode + "-" + arch + ".so")
    || name == "include/penguin-qemu-cffi/" + ("qemu_cffi_" + mode + "_" + arch + ".h")
    || name == "include/penguin-qemu-cffi/" + ("qemu_cffi_" + mode + "_" + EnvHeaderName(arch) + "_env.h")
    || (m.Some? && m.value != "" && name == "lib/penguin-qemu-env/" + m.value)
  }

  ghost predicate SystemNamed(arches: seq<string>, compiles: string -> Option<string>, name: string) {
    || name == "include/penguin-qemu-cffi/qemu_cffi_system_manifest.json"
    || exists i :: 0 <= i < |arches| && TargetOf(arches[i]).Some? &&
         NamedForArch("system", arches[i], compiles(TargetOf(arches[i]).value), name)
  }

  ghost predicate KvmNamed(targets: seq<string>, compiles: string -> Option<string>, name: string) {
    || name == "include/penguin-qemu-cffi/qemu_cffi_kvm_manifest.json"
    || exists i :: 0 <= i < |targets| &&
         NamedForArch("kvm", WithoutSuffix(targets[i], SOFTMMU), compiles(targets[i]), name)
  }

  lemma EntryNamed(mode: string, e: Entry, compiles: string -> Option<string>, name: string)
    requires IsMode(mode) && FreshEntry(mode, e)
    ensures NamedBy(EnvEntry(compiles, e), name) <==> NamedForArch(mode, e.arch, compiles(Key(e)), name)
  {
    hide EnvHeaderName, VaddrBits;
    EnvOf(mode, e.arch);
  }

  /** The names of a directory are those of its entries and of its manifest. */
  lemma ReadyNamed(dir: Directory, mode: string, entries: seq<Entry>, compiles: string -> Option<string>, name: string)
    requires Ready(dir, mode, Some(entries), compiles)
    ensures NamedIn(dir, name) <==>
      || name == IncludeArc(ManifestName(mode))
      || exists i :: 0 <= i < |entries| && NamedForArch(mode, entries[i].arch, compiles(Key(entries[i])), name)
  {
    hide NamedBy, NamedForArch, EnvEntry, FreshEntry, EntryTargets, Compiled, EnvHeaderName, IncludeArc, ManifestName;
    var manifest := dir.manifest.value;
    forall i | 0 <= i < |entries|
      ensures NamedBy(manifest[i], name) <==> NamedForArch(mode, entries[i].arch, compiles(Key(entries[i])), name)
    {
      EntryNamed(mode, entries[i], compiles, name);
    }
    if e :| e in manifest && NamedBy(e, name) {
      var i :| 0 <= i < |manifest| && manifest[i] == e;
    }
    if i :| 0 <= i < |entries| && NamedForArch(mode, entries[i].arch, compiles(Key(entries[i])), name) {
      assert manifest[i] in manifest;
    }
  }

  lemma SystemNames(dir: Directory, arches: seq<string>, compiles: string -> Option<string>, name: string)
    requires Supported(arches) && Ready(dir, "system", SystemEntries(arches), compiles)
    ensures NamedIn(dir, name) <==> SystemNamed(arches, compiles, name)
  {
    hide Ready, NamedIn, NamedForArch, TargetOf, SystemEntries, FreshEntry;
    SystemFresh(arches);
    var entries := SystemEntries(arches).value;
    ReadyNamed(dir, "system", entries, compiles, name);
    assert IncludeArc(ManifestName("system")) == "include/penguin-qemu-cffi/qemu_cffi_system_manifest.json";
    forall i | 0 <= i < |arches|
      ensures entries[i].arch == arches[i] && Key(entries[i]) == TargetOf(arches[i]).value
    {
      assert ArchesOf(entries)[i] == arches[i];
    }
  }

  lemma KvmNames(dir: Directory, targets: seq<string>, compiles: string -> Option<string>, name: string)
    requires KvmEntries(targets).Some? && Ready(dir, "kvm", KvmEntries(targets), compiles)
    ensures NamedIn(dir, name) <==> KvmNamed(targets, compiles, name)
  {
    hide Ready, NamedIn, NamedForArch, KvmEntries, FreshEntry;
    KvmFresh(targets);
    var entries := KvmEntries(targets).value;
    ReadyNamed(dir, "kvm", entries, compiles, name);
    assert IncludeArc(ManifestName("kvm")) == "include/penguin-qemu-cffi/qemu_cffi_kvm_manifest.json";
    forall i | 0 <= i < |targets|
      ensures entries[i].arch == WithoutSuffix(targets[i], SOFTMMU) && Key(entries[i]) == targets[i]
    {
      assert ArchesOf(entries)[i] == KvmArches(targets)[i];
    }
  }

  /** A name in the package. */
  ghost predicate Belongs(bios: seq<BiosFile>, arches: seq<string>, systemCompiles: string -> Option<string>,
                          kvmTargets: Option<seq<string>>, kvmCompiles: string -> Option<string>, name: string) {
    || name == "bin/qemu-img" || name == "penguin-qemu-package.json" || IsFirmware(bios, name)
    || SystemNamed(arches, systemCompiles, name)
    || (kvmTargets.Some? && KvmNamed(kvmTargets.value, kvmCompiles, name))
  }

  lemma PackageNamed(bios: seq<BiosFile>, system: Directory, kvm: Directory, arches: seq<string>,
                     systemCompiles: string -> Option<string>, kvmTargets: Option<seq<string>>,
                     kvmCompiles: string -> Option<string>, name: string)
    requires PackageNames(true, Some(bios), system, kvm).Some?
    requires Supported(arches) && Ready(system, "system", SystemEntries(arches), systemCompiles)
    requires kvmTargets.Some? ==> KvmEntries(kvmTargets.value).Some?
    requires Ready(kvm, "kvm", if kvmTargets.Some? then KvmEntries(kvmTargets.value) else None, kvmCompiles)
    ensures name in PackageNames(true, Some(bios), system, kvm).value + [METADATA] <==>
      Belongs(bios, arches, systemCompiles, kvmTargets, kvmCompiles, name)
  {
    hide PackageNames, SystemNamed, KvmNamed, IsFirmware, Supported, SystemEntries, KvmEntries, Fresh, Complete;
    PackageExactly(bios, system, kvm, name);
    SystemNames(system, arches, systemCompiles, name);
    if kvmTargets.Some? {
      KvmNames(kvm, kvmTargets.value, kvmCompiles, name);
    }
  }

  lemma NothingWithout(hasImg: bool, bios: Option<seq<BiosFile>>, system: Directory, kvm: Directory)
    ensures !hasImg || bios.None? ==> PackageNames(hasImg, bios, system, kvm).None?
  {
  }

  /** Everything that the manifest names is in the archive. */
  ghost predicate HoldsAll(archive: seq<string>, dir: Directory) {
    dir.manifest.Some? ==> forall e :: e in dir.manifest.value ==> Holds(archive, e)
  }

  /** The archive is that of two directories, with the list of its names, and holds what their manifests name. */
  ghost predicate ShippedFrom(archive: seq<string>, bios: seq<BiosFile>, system: Directory, kvm: Directory) {
    && HoldsAll(archive, system) && HoldsAll(archive, kvm)
    && var names := PackageNames(true, Some(bios), system, kvm);
       names.Some? && archive == names.value + [METADATA]
  }

  lemma PackedHolds(bios: seq<BiosFile>, system: Directory, kvm: Directory)
    requires PackageNames(true, Some(bios), system, kvm).Some?
    ensures ShippedFrom(PackageNames(true, Some(bios), system, kvm).value + [METADATA], bios, system, kvm)
  {
    hide PackageNames, Holds;
    PackageHolds(true, Some(bios), system, kvm);
    var names := PackageNames(true, Some(bios), system, kvm).value;
    forall e | Holds(names, e)
      ensures Holds(names + [METADATA], e)
    {
      StillHeld(names, names + [METADATA], e);
    }
  }
}
