/** Manifests and the package: from the arches of a build to the archive that is shipped. */
module Package {
  import opened Dwarf
  import opened Lists
  import opened Arches

  // ---- Manifests ----

  // An older manifest may have no target
  datatype Entry = Entry(
    arch: string,
    target: Option<string>,
    library: string,
    header: string,
    vaddrBits: int,
    envHeader: Option<string>,
    envModule: Option<string>)

  function VaddrBits(arch: string): int {
    if arch == "armel" || arch == "arm" || arch == "mipsel" || arch == "mipseb" || arch == "mips"
      || arch == "powerpc" || arch == "ppc" then 32
    else 64
  }

  function LibraryName(mode: string, arch: string): string {
    "libqemu-" + mode + "-" + arch + ".so"
  }

  function HeaderName(mode: string, arch: string): string {
    "qemu_cffi_" + mode + "_" + arch + ".h"
  }

  function ManifestName(mode: string): string {
    "qemu_cffi_" + mode + "_manifest.json"
  }

  function CffiPackageName(mode: string): string {
    "penguin-qemu-cffi-" + mode + ".tar.gz"
  }

  function NewEntry(mode: string, arch: string, target: string): Entry {
    Entry(arch, Some(target), LibraryName(mode, arch), HeaderName(mode, arch), VaddrBits(arch), None, None)
  }

  // The script has a table of its own
  const SYSTEM_TARGETS: map<string, string> := map[
    "intel64" := "x86_64-softmmu",
    "x86_64" := "x86_64-softmmu",
    "armel" := "arm-softmmu",
    "arm" := "arm-softmmu",
    "aarch64" := "aarch64-softmmu",
    "mipsel" := "mipsel-softmmu",
    "mipseb" := "mips-softmmu",
    "mips" := "mips-softmmu",
    "mips64el" := "mips64el-softmmu",
    "mips64eb" := "mips64-softmmu",
    "mips64" := "mips64-softmmu",
    "powerpc" := "ppc-softmmu",
    "ppc" := "ppc-softmmu",
    "powerpc64" := "ppc64-softmmu",
    "powerpc64le" := "ppc64-softmmu",
    "powerpc64el" := "ppc64-softmmu",
    "ppc64" := "ppc64-softmmu",
    "riscv64" := "riscv64-softmmu",
    "loongarch64" := "loongarch64-softmmu"]

  function SystemTarget(arch: string): Option<string> {
    if arch in SYSTEM_TARGETS then Some(SYSTEM_TARGETS[arch]) else None
  }

  /** It agrees with the one that build.sh reads. */
  lemma TablesAgree(arch: string)
    ensures SystemTarget(arch) == TargetOf(arch)
  {
    assert "x86_64" + SOFTMMU == "x86_64-softmmu";
    assert "arm" + SOFTMMU == "arm-softmmu";
    assert "aarch64" + SOFTMMU == "aarch64-softmmu";
    assert "mipsel" + SOFTMMU == "mipsel-softmmu";
    assert "mips" + SOFTMMU == "mips-softmmu";
    assert "mips64el" + SOFTMMU == "mips64el-softmmu";
    assert "mips64" + SOFTMMU == "mips64-softmmu";
    assert "ppc" + SOFTMMU == "ppc-softmmu";
    assert "ppc64" + SOFTMMU == "ppc64-softmmu";
    assert "riscv64" + SOFTMMU == "riscv64-softmmu";
    assert "loongarch64" + SOFTMMU == "loongarch64-softmmu";
  }

  /** The targets of 32-bit guests. */
  predicate Is32Bit(target: string) {
    target == "arm-softmmu" || target == "mipsel-softmmu" || target == "mips-softmmu" || target == "ppc-softmmu"
  }

  /** An arch has the address width of its target, aliases included. */
  lemma WidthOfTarget(arch: string)
    requires TargetOf(arch).Some?
    ensures VaddrBits(arch) == if Is32Bit(TargetOf(arch).value) then 32 else 64
  {
    hide SystemTarget;
    TablesAgree(arch);
    WidthByTable(arch);
  }

  lemma WidthByTable(arch: string)
    requires SystemTarget(arch).Some?
    ensures VaddrBits(arch) == if Is32Bit(SystemTarget(arch).value) then 32 else 64
  {
  }

  /** The entries for a list of arches; none when one is not supported. */
  function SystemEntries(arches: seq<string>): Option<seq<Entry>> {
    if forall i :: 0 <= i < |arches| ==> SystemTarget(arches[i]).Some? then
      Some(seq(|arches|, i requires 0 <= i < |arches| => NewEntry("system", arches[i], SystemTarget(arches[i]).value)))
    else None
  }

  /** The entries for a list of targets; none when one has another suffix. */
  function KvmEntries(targets: seq<string>): Option<seq<Entry>> {
    if forall i :: 0 <= i < |targets| ==> EndsWith(targets[i], SOFTMMU) then
      Some(seq(|targets|, i requires 0 <= i < |targets| =>
        NewEntry("kvm", WithoutSuffix(targets[i], SOFTMMU), targets[i])))
    else None
  }

  /** The key under which what is made of a library is remembered. */
  function Key(e: Entry): string {
    if e.target.Some? then e.target.value else e.library
  }

  /** Python's replace of ".h" by "_env.h", everywhere in the name. */
  function EnvHeaderName(header: string): string {
    if |header| < 2 then header
    else if header[..2] == ".h" then "_env.h" + EnvHeaderName(header[2..])
    else [header[0]] + EnvHeaderName(header[1..])
  }

  /** The last component of a path. */
  function BaseName(path: string): string {
    if path == "" then ""
    else
      var n := |path| - 1;
      if path[n] == '/' then "" else BaseName(path[..n]) + [path[n]]
  }

  // ---- Build directories ----

  /** What a file in a build directory holds.  The declarations of a header for the CPU state are what follows its
      opening comment. */
  datatype File<L, D> =
    | Built(library: L)
    | CffiHeader(vaddrBits: int)
    | CpuHeader(declarations: D)
    | Json
    | Tarball(members: seq<string>)

  type Files<L, D> = map<string, File<L, D>>

  /** What the generator makes of a file: nothing when it is missing, is no library, or cannot be generated from. */
  function FromLibrary<L, D>(generate: L -> Option<D>, files: Files<L, D>, name: string): Option<D> {
    if name in files && files[name].Built? then generate(files[name].library) else None
  }

  /** The files once the headers of the entries are written. */
  function WithHeaders<L, D>(files: Files<L, D>, entries: seq<Entry>): Files<L, D> {
    if entries == [] then files
    else
      var e := entries[|entries| - 1];
      WithHeaders(files, entries[..|entries| - 1])[e.header := CffiHeader(e.vaddrBits)]
  }

  function HeaderMembers(entries: seq<Entry>): seq<string> {
    seq(|entries|, i requires 0 <= i < |entries| => BaseName(entries[i].header))
  }

  lemma HeadersNone<L, D>(files: Files<L, D>)
    ensures WithHeaders(files, []) == files && HeaderMembers([]) == []
  {
  }

  lemma HeadersNext<L, D>(files: Files<L, D>, entries: seq<Entry>, i: nat)
    requires i < |entries|
    ensures var e := entries[i];
      && WithHeaders(files, entries[..i + 1]) == WithHeaders(files, entries[..i])[e.header := CffiHeader(e.vaddrBits)]
      && HeaderMembers(entries[..i + 1]) == HeaderMembers(entries[..i]) + [BaseName(e.header)]
  {
    hide BaseName;
    assert entries[..i + 1][..i] == entries[..i];
  }

  /** The files, and for each key the declarations generated for it. */
  datatype EnvRun<L, D> = EnvRun(files: Files<L, D>, headers: map<string, D>)

  /** What is left after the entries.  Only the first entry of each key is generated from its library. */
  function Generating<L, D>(generate: L -> Option<D>, files: Files<L, D>, entries: seq<Entry>): Option<EnvRun<L, D>> {
    if entries == [] then Some(EnvRun(files, map[]))
    else
      var e := entries[|entries| - 1];
      var before :- Generating(generate, files, entries[..|entries| - 1]);
      if Key(e) in before.headers then
        Some(before.(files := before.files[EnvHeaderName(e.header) := CpuHeader(before.headers[Key(e)])]))
      else
        var d :- FromLibrary(generate, before.files, e.library);
        Some(EnvRun(before.files[EnvHeaderName(e.header) := CpuHeader(d)], before.headers[Key(e) := d]))
  }

  /** One build directory: its files, the compiled modules below it, and its manifest once it is written. */
  class BuildTree<L, D> {
    var files: Files<L, D>
    var modules: set<string>
    var manifest: Option<seq<Entry>>
    // The keys that are logged, in order, when a header and a module are made for them
    var log: seq<string>

    constructor (files: Files<L, D>)
      ensures this.files == files && modules == {} && manifest.None? && log == []
    {
      this.files, modules, manifest, log := files, {}, None, [];
    }

    /** Headers for the entries, the manifest, and an archive of both.  It fails when a library is missing. */
    method GenerateCffi(mode: string, entries: seq<Entry>) returns (ok: bool)
      modifies this`files, this`manifest
      ensures ok <==>
        forall i :: 0 <= i < |entries| ==> entries[i].library in WithHeaders(old(files), entries[..i])
      ensures ok ==>
        && files == WithHeaders(old(files), entries)[ManifestName(mode) := Json]
             [CffiPackageName(mode) := Tarball(HeaderMembers(entries) + [BaseName(ManifestName(mode))])]
      ensures manifest == if ok then Some(entries) else old(manifest)
    {
      hide ManifestName, CffiPackageName, BaseName, WithHeaders, HeaderMembers;
      HeadersNone(files);
      var members: seq<string> := [];
      for i := 0 to |entries|
        invariant files == WithHeaders(old(files), entries[..i]) && manifest == old(manifest)
        invariant members == HeaderMembers(entries[..i])
        invariant forall k :: 0 <= k < i ==> entries[k].library in WithHeaders(old(files), entries[..k])
      {
        HeadersNext(old(files), entries, i);
        if entries[i].library !in files {
          return false;
        }
        files := files[entries[i].header := CffiHeader(entries[i].vaddrBits)];
        members := members + [BaseName(entries[i].header)];
      }
      assert entries[..|entries|] == entries;
      files := files[ManifestName(mode) := Json];
      manifest := Some(entries);
      members := members + [BaseName(ManifestName(mode))];
      files := files[CffiPackageName(mode) := Tarball(members)];
      return true;
    }

    /** A header of the CPU state for every entry and, where it compiles, a module, one for each key.
        `generate` and `compiles` stand for what the generator makes of a library and the compiler of a target. */
    method GenerateEnv(generate: L -> Option<D>, compiles: string -> Option<string>) returns (ok: bool)
      requires manifest.Some?
      modifies this
      ensures ok <==> Generating(generate, old(files), old(manifest).value).Some?
      ensures ok ==>
        && manifest == Some(WithEnv(compiles, old(manifest).value))
        && files == Generating(generate, old(files), old(manifest).value).value.files
        && modules == old(modules) + Compiled(compiles, EntryTargets(old(manifest).value))
        && log == old(log) + EntryTargets(old(manifest).value)
    {
      hide WithEnv, EntryTargets, Compiled, EnvEntry, EnvHeaderName, Generating, FromLibrary, Key;
      var entries := manifest.value;
      NothingDone(generate, files, compiles);
      var result: seq<Entry> := [];
      var headers: map<string, D> := map[];
      var compiled: map<string, Option<string>> := map[];
      for i := 0 to |entries|
        invariant manifest == old(manifest)
        invariant Generating(generate, old(files), entries[..i]) == Some(EnvRun(files, headers))
        invariant compiled == map k | k in headers :: compiles(k)
        invariant log == old(log) + EntryTargets(entries[..i])
        invariant headers.Keys == set k | k in EntryTargets(entries[..i])
        invariant result == WithEnv(compiles, entries[..i])
        invariant modules == old(modules) + Compiled(compiles, EntryTargets(entries[..i]))
      {
        var entry := entries[i];
        var key := Key(entry);
        EntryDone(generate, old(files), compiles, entries, i);
        if key !in headers {
          var declarations := FromLibrary(generate, files, entry.library);
          if declarations.None? {
            NotGenerated(generate, old(files), entries, i + 1);
            return false;
          }
          log := log + [key];
          headers := headers[key := declarations.value];
          compiled := compiled[key := compiles(key)];
          if compiled[key].Some? {
            modules := modules + {compiled[key].value};
          }
        }
        assert headers[key := headers[key]] == headers;
        files := files[EnvHeaderName(entry.header) := CpuHeader(headers[key])];
        var env := entry.(envHeader := Some(EnvHeaderName(entry.header)));
        if compiled[key].Some? && compiled[key].value != "" {
          env := env.(envModule := compiled[key]);
        }
        EnvEntryIs(compiles, entry);
        result := result + [env];
      }
      assert entries[..|entries|] == entries;
      manifest := Some(result);
      return true;
    }
  }

  /** The keys of the entries, each in the place of its first entry. */
  function EntryTargets(entries: seq<Entry>): seq<string> {
    if entries == [] then []
    else
      var n := |entries| - 1;
      var earlier := EntryTargets(entries[..n]);
      if Key(entries[n]) in earlier then earlier else earlier + [Key(entries[n])]
  }

  function Compiled(compiles: string -> Option<string>, targets: seq<string>): set<string> {
    if targets == [] then {}
    else
      var m := compiles(targets[|targets| - 1]);
      Compiled(compiles, targets[..|targets| - 1]) + if m.Some? then {m.value} else {}
  }

  function EnvEntry(compiles: string -> Option<string>, e: Entry): Entry {
    var m := compiles(Key(e));
    e.(envHeader := Some(EnvHeaderName(e.header)),
       envModule := if m.Some? && m.value != "" then m else e.envModule)
  }

  function WithEnv(compiles: string -> Option<string>, entries: seq<Entry>): (r: seq<Entry>)
    ensures |r| == |entries|
  {
    seq(|entries|, i requires 0 <= i < |entries| => EnvEntry(compiles, entries[i]))
  }

  lemma NothingDone<L, D>(generate: L -> Option<D>, files: Files<L, D>, compiles: string -> Option<string>)
    ensures Generating(generate, files, []) == Some(EnvRun(files, map[])) && WithEnv(compiles, []) == []
    ensures EntryTargets([]) == [] && Compiled(compiles, []) == {}
  {
  }

  lemma EnvEntryIs(compiles: string -> Option<string>, e: Entry)
    ensures
      var env, m := e.(envHeader := Some(EnvHeaderName(e.header))), compiles(Key(e));
      EnvEntry(compiles, e) == if m.Some? && m.value != "" then env.(envModule := m) else env
  {
    hide EnvHeaderName;
  }

  /** One more entry. */
  lemma EntryDone<L, D>(generate: L -> Option<D>, files: Files<L, D>, compiles: string -> Option<string>,
                        entries: seq<Entry>, i: nat)
    requires i < |entries| && Generating(generate, files, entries[..i]).Some?
    ensures
      var done, next, e := entries[..i], entries[..i + 1], entries[i];
      var earlier, run := EntryTargets(done), Generating(generate, files, done).value;
      var d := if Key(e) in run.headers then Some(run.headers[Key(e)]) else FromLibrary(generate, run.files, e.library);
      && WithEnv(compiles, next) == WithEnv(compiles, done) + [EnvEntry(compiles, e)]
      && (if Key(e) in earlier then EntryTargets(next) == earlier
          else
            && EntryTargets(next) == earlier + [Key(e)]
            && Compiled(compiles, EntryTargets(next)) ==
                 Compiled(compiles, earlier) + (if compiles(Key(e)).Some? then {compiles(Key(e)).value} else {}))
      && Generating(generate, files, next) ==
           if d.None? then None
           else Some(EnvRun(run.files[EnvHeaderName(e.header) := CpuHeader(d.value)], run.headers[Key(e) := d.value]))
  {
    hide EnvHeaderName, FromLibrary, Key;
    var done, next, e := entries[..i], entries[..i + 1], entries[i];
    assert next[..i] == done && next == done + [e];
    var earlier, run := EntryTargets(done), Generating(generate, files, done).value;
    assert (earlier + [Key(e)])[..|earlier|] == earlier;
    assert Key(e) in run.headers ==> run.headers[Key(e) := run.headers[Key(e)]] == run.headers;
  }

  lemma {:induction false} NotGenerated<L, D>(generate: L -> Option<D>, files: Files<L, D>, entries: seq<Entry>, n: nat)
    requires n <= |entries| && Generating(generate, files, entries[..n]).None?
    ensures Generating(generate, files, entries).None?
    decreases |entries| - n
  {
    hide FromLibrary, EnvHeaderName, Key;
    if n == |entries| {
      assert entries[..n] == entries;
    } else {
      assert entries[..n + 1][..n] == entries[..n];
      NotGenerated(generate, files, entries, n + 1);
    }
  }

  /** Every target is generated and compiled once. */
  lemma {:induction false} EachTargetOnce(entries: seq<Entry>)
    ensures NoRepeats(EntryTargets(entries))
    ensures forall t :: t in EntryTargets(entries) <==> exists i :: 0 <= i < |entries| && Key(entries[i]) == t
  {
    if entries == [] {
    } else {
      var n := |entries| - 1;
      EachTargetOnce(entries[..n]);
      forall t
        ensures t in EntryTargets(entries) <==> exists i :: 0 <= i < |entries| && Key(entries[i]) == t
      {
        if t in EntryTargets(entries[..n]) {
          var i :| 0 <= i < n && Key(entries[..n][i]) == t;
          assert Key(entries[i]) == t;
        }
        if i :| 0 <= i < |entries| && Key(entries[i]) == t {
          if i < n {
            assert Key(entries[..n][i]) == t;
          }
        }
      }
    }
  }
}
