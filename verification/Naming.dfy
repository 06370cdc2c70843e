/** The names of what is packaged: what "_env.h" for ".h" makes of them, and which of them can be the same. */
module Naming {
  import opened Package
  import opened Archive

  // ---- Renaming ----

  predicate BeginsDotH(s: string) {
    |s| >= 2 && s[0] == '.' && s[1] == 'h'
  }

  lemma Renamed(s: string)
    ensures EnvHeaderName("") == ""
    ensures BeginsDotH(s) ==> EnvHeaderName(s) == "_env.h" + EnvHeaderName(s[2..])
    ensures s != "" && !BeginsDotH(s) ==> EnvHeaderName(s) == [s[0]] + EnvHeaderName(s[1..])
  {
    if |s| >= 2 {
      assert s[..2] == [s[0], s[1]];
    }
  }

  /** Every other first character than an underscore is the one before renaming. */
  lemma FirstKept(s: string)
    requires EnvHeaderName(s) != "" && EnvHeaderName(s)[0] != '_'
    ensures s != "" && !BeginsDotH(s) && EnvHeaderName(s)[0] == s[0] && EnvHeaderName(s)[1..] == EnvHeaderName(s[1..])
  {
    Renamed(s);
  }

  lemma NeverDotH(s: string)
    ensures !BeginsDotH(EnvHeaderName(s))
  {
    if BeginsDotH(EnvHeaderName(s)) {
      FirstKept(s);
      FirstKept(s[1..]);
    }
  }

  lemma OnlyFromDotH(s: string)
    requires "_env.h" <= EnvHeaderName(s)
    ensures BeginsDotH(s)
  {
    var r := EnvHeaderName(s);
    assert r[0] == "_env.h"[0] && r[1] == "_env.h"[1] && r[2] == "_env.h"[2] && r[3] == "_env.h"[3]
      && r[4] == "_env.h"[4] && r[5] == "_env.h"[5];
    Renamed(s);
    if !BeginsDotH(s) {
      FirstKept(s[1..]);
      FirstKept(s[1..][1..]);
      FirstKept(s[1..][1..][1..]);
      NeverDotH(s[1..][1..][1..][1..]);
    }
  }

  lemma {:induction false} RenamedInjective(s: string, t: string)
    requires EnvHeaderName(s) == EnvHeaderName(t)
    ensures s == t
  {
    Renamed(s);
    Renamed(t);
    if s == "" || t == "" {
    } else if BeginsDotH(s) || BeginsDotH(t) {
      OnlyFromDotH(s);
      OnlyFromDotH(t);
      assert EnvHeaderName(s)[6..] == EnvHeaderName(s[2..]) && EnvHeaderName(t)[6..] == EnvHeaderName(t[2..]);
      RenamedInjective(s[2..], t[2..]);
      assert s == s[..2] + s[2..] && t == t[..2] + t[2..];
    } else {
      assert EnvHeaderName(s)[1..] == EnvHeaderName(s[1..]) && EnvHeaderName(t)[1..] == EnvHeaderName(t[1..]);
      RenamedInjective(s[1..], t[1..]);
      assert s == [s[0]] + s[1..] && t == [t[0]] + t[1..];
    }
  }

  lemma {:induction false} RenamedEnd(s: string)
    ensures EnvHeaderName(s + ".h") == EnvHeaderName(s) + "_env.h"
  {
    Renamed(s);
    Renamed(s + ".h");
    if s == "" {
      assert s + ".h" == ".h";
    } else if BeginsDotH(s) {
      RenamedEnd(s[2..]);
      assert (s + ".h")[2..] == s[2..] + ".h";
    } else {
      RenamedEnd(s[1..]);
      assert (s + ".h")[1..] == s[1..] + ".h";
    }
  }

  lemma {:induction false} RenamedAfter(before: string, s: string)
    requires '.' !in before
    ensures EnvHeaderName(before + s) == before + EnvHeaderName(s)
  {
    hide EnvHeaderName;
    if before == "" {
      assert before + s == s;
    } else {
      Renamed(before + s);
      assert before[0] in before && (before + s)[0] == before[0];
      RenamedAfter(before[1..], s);
      assert (before + s)[1..] == before[1..] + s;
      assert before == [before[0]] + before[1..];
    }
  }

  predicate IsMode(mode: string) {
    mode == "system" || mode == "kvm"
  }

  /** The name of the header for the CPU state. */
  function EnvName(mode: string, arch: string): string {
    "qemu_cffi_" + mode + "_" + EnvHeaderName(arch) + "_env.h"
  }

  lemma EnvOf(mode: string, arch: string)
    requires IsMode(mode)
    ensures EnvHeaderName(HeaderName(mode, arch)) == EnvName(mode, arch)
  {
    hide EnvHeaderName;
    var before := "qemu_cffi_" + mode + "_";
    RenamedAfter(before, arch + ".h");
    assert before + (arch + ".h") == HeaderName(mode, arch);
    RenamedEnd(arch);
  }

  // ---- Names in the archive ----

  /** What a name in the archive stands for. */
  datatype Item =
    | Image
    | Bios(rest: string)
    | ManifestOf(mode: string)
    | Library(mode: string, arch: string)
    | Header(mode: string, arch: string)
    | EnvHeader(mode: string, arch: string)
    | Module(name: string)
    | Listing

  function ArcOf(x: Item): string {
    match x
    case Image => QEMU_IMG
    case Bios(rest) => "share/qemu/" + rest
    case ManifestOf(mode) => IncludeArc(ManifestName(mode))
    case Library(mode, arch) => LibraryArc(LibraryName(mode, arch))
    case Header(mode, arch) => IncludeArc(HeaderName(mode, arch))
    case EnvHeader(mode, arch) => IncludeArc(EnvName(mode, arch))
    case Module(name) => ModuleArc(name)
    case Listing => METADATA
  }

  /** The header of one arch has the name of another one's header for the CPU state. */
  predicate Confused(x: Item, y: Item) {
    x.Header? && y.EnvHeader? && x.mode == y.mode && x.arch == EnvHeaderName(y.arch) + "_env"
  }

  predicate ValidItem(x: Item) {
    match x
    case ManifestOf(mode) => IsMode(mode)
    case Library(mode, arch) => IsMode(mode)
    case Header(mode, arch) => IsMode(mode)
    case EnvHeader(mode, arch) => IsMode(mode)
    case _ => true
  }

  lemma IncludeInjective(a: string, b: string)
    requires IncludeArc(a) == IncludeArc(b)
    ensures a == b
  {
    var n := |"include/penguin-qemu-cffi/"|;
    assert IncludeArc(a)[n..] == a && IncludeArc(b)[n..] == b;
  }

  /** The mode and the rest of a name that begins with its mode. */
  lemma ModeInjective(before: string, a: string, b: string, r: string, s: string)
    requires IsMode(a) && IsMode(b) && before + a + r == before + b + s
    ensures a == b && r == s
  {
    var n := |before|;
    assert (before + a + r)[n..] == a + r && (before + b + s)[n..] == b + s;
    assert (a + r)[0] == a[0] && (b + s)[0] == b[0];
    assert (a + r)[|a|..] == r && (b + s)[|b|..] == s;
  }

  lemma LibrariesApart(a: string, b: string, x: string, y: string)
    requires IsMode(a) && IsMode(b) && LibraryName(a, x) == LibraryName(b, y)
    ensures a == b && x == y
  {
    assert LibraryName(a, x) == "libqemu-" + a + ("-" + x + ".so");
    assert LibraryName(b, y) == "libqemu-" + b + ("-" + y + ".so");
    ModeInjective("libqemu-", a, b, "-" + x + ".so", "-" + y + ".so");
    assert ("-" + x + ".so")[1..|x| + 1] == x && ("-" + y + ".so")[1..|y| + 1] == y;
  }

  lemma HeadersApart(a: string, b: string, x: string, y: string, tail: string)
    requires IsMode(a) && IsMode(b)
    requires "qemu_cffi_" + a + "_" + x + tail == "qemu_cffi_" + b + "_" + y + tail
    ensures a == b && x == y
  {
    assert "qemu_cffi_" + a + "_" + x + tail == "qemu_cffi_" + a + ("_" + x + tail);
    assert "qemu_cffi_" + b + "_" + y + tail == "qemu_cffi_" + b + ("_" + y + tail);
    ModeInjective("qemu_cffi_", a, b, "_" + x + tail, "_" + y + tail);
    assert ("_" + x + tail)[1..|x| + 1] == x && ("_" + y + tail)[1..|y| + 1] == y;
  }

  lemma HeaderNotEnv(a: string, b: string, x: string, y: string)
    requires IsMode(a) && IsMode(b)
    ensures HeaderName(a, x) == EnvName(b, y) <==> a == b && x == EnvHeaderName(y) + "_env"
  {
    var z := EnvHeaderName(y);
    assert EnvName(b, y) == "qemu_cffi_" + b + "_" + (z + "_env") + ".h";
    if HeaderName(a, x) == EnvName(b, y) {
      HeadersApart(a, b, x, z + "_env", ".h");
    }
  }

  lemma LastCharacters(mode: string, arch: string)
    ensures var m, h, e := ManifestName(mode), HeaderName(mode, arch), EnvName(mode, arch);
      m[|m| - 1] == 'n' && h[|h| - 1] == 'h' && e[|e| - 1] == 'h'
  {
  }

  /** Items of two kinds below include/ have different names. */
  lemma IncludesApart(x: Item, y: Item)
    requires ValidItem(x) && ValidItem(y) && ArcOf(x) == ArcOf(y)
    requires x.ManifestOf? || x.Header? || x.EnvHeader?
    requires y.ManifestOf? || y.Header? || y.EnvHeader?
    requires !Confused(x, y) && !Confused(y, x)
    ensures x == y
  {
    hide ManifestName, HeaderName, EnvName, IncludeArc;
    LastCharacters(x.mode, if x.ManifestOf? then "" else x.arch);
    LastCharacters(y.mode, if y.ManifestOf? then "" else y.arch);
    match (x, y)
    case (ManifestOf(a), ManifestOf(b)) =>
      IncludeInjective(ManifestName(a), ManifestName(b));
      ManifestsApart(a, b);
    case (Header(a, m), Header(b, n)) =>
      IncludeInjective(HeaderName(a, m), HeaderName(b, n));
      SameHeader(a, b, m, n);
    case (EnvHeader(a, m), EnvHeader(b, n)) =>
      IncludeInjective(EnvName(a, m), EnvName(b, n));
      SameEnv(a, b, m, n);
    case (Header(a, m), EnvHeader(b, n)) =>
      HeaderNotEnv(a, b, m, n);
      IncludeInjective(HeaderName(a, m), EnvName(b, n));
    case (EnvHeader(a, m), Header(b, n)) =>
      HeaderNotEnv(b, a, n, m);
      IncludeInjective(EnvName(a, m), HeaderName(b, n));
    case (ManifestOf(a), Header(b, n)) => IncludeInjective(ManifestName(a), HeaderName(b, n));
    case (ManifestOf(a), EnvHeader(b, n)) => IncludeInjective(ManifestName(a), EnvName(b, n));
    case (Header(b, n), ManifestOf(a)) => IncludeInjective(HeaderName(b, n), ManifestName(a));
    case (EnvHeader(b, n), ManifestOf(a)) => IncludeInjective(EnvName(b, n), ManifestName(a));
  }

  lemma ManifestsApart(a: string, b: string)
    requires IsMode(a) && IsMode(b) && ManifestName(a) == ManifestName(b)
    ensures a == b
  {
    ModeInjective("qemu_cffi_", a, b, "_manifest.json", "_manifest.json");
  }

  lemma SameHeader(a: string, b: string, m: string, n: string)
    requires IsMode(a) && IsMode(b) && HeaderName(a, m) == HeaderName(b, n)
    ensures a == b && m == n
  {
    HeadersApart(a, b, m, n, ".h");
  }

  lemma SameEnv(a: string, b: string, m: string, n: string)
    requires IsMode(a) && IsMode(b) && EnvName(a, m) == EnvName(b, n)
    ensures a == b && m == n
  {
    HeadersApart(a, b, EnvHeaderName(m), EnvHeaderName(n), "_env.h");
    RenamedInjective(m, n);
  }

  predicate BelowInclude(x: Item) {
    x.ManifestOf? || x.Header? || x.EnvHeader?
  }

  predicate BelowLib(x: Item) {
    x.Library? || x.Module?
  }

  /** The beginnings of names tell the directories apart. */
  lemma Beginnings(x: Item)
    ensures ArcOf(x) != []
    ensures ArcOf(x)[0] ==
      (if BelowInclude(x) then 'i' else if BelowLib(x) then 'l' else if x.Bios? then 's' else if x.Image? then 'b' else 'p')
    ensures BelowLib(x) ==> |ArcOf(x)| > 4 && ArcOf(x)[4] == if x.Module? then 'p' else 'l'
  {
    match x
    case Image =>
    case Listing =>
    case Bios(rest) => assert ArcOf(x)[0] == "share/qemu/"[0];
    case ManifestOf(mode) => assert ArcOf(x)[0] == "include/penguin-qemu-cffi/"[0];
    case Header(mode, arch) => assert ArcOf(x)[0] == "include/penguin-qemu-cffi/"[0];
    case EnvHeader(mode, arch) => assert ArcOf(x)[0] == "include/penguin-qemu-cffi/"[0];
    case Library(mode, arch) => assert LibraryName(mode, arch)[0] == 'l';
    case Module(name) => assert ArcOf(x)[4] == "lib/penguin-qemu-env/"[4];
  }

  /** Different things have different names. */
  lemma ArcInjective(x: Item, y: Item)
    requires ValidItem(x) && ValidItem(y) && ArcOf(x) == ArcOf(y) && !Confused(x, y) && !Confused(y, x)
    ensures x == y
  {
    Beginnings(x);
    Beginnings(y);
    hide ManifestName, HeaderName, EnvName, IncludeArc, LibraryName;
    if BelowInclude(x) {
      IncludesApart(x, y);
    } else if x.Bios? {
      assert ArcOf(x)[11..] == x.rest && ArcOf(y)[11..] == y.rest;
    } else if x.Module? {
      var n := |"lib/penguin-qemu-env/"|;
      assert ArcOf(x)[n..] == x.name && ArcOf(y)[n..] == y.name;
    } else if x.Library? {
      assert ArcOf(x)[4..] == LibraryName(x.mode, x.arch) && ArcOf(y)[4..] == LibraryName(y.mode, y.arch);
      LibrariesApart(x.mode, y.mode, x.arch, y.arch);
    }
  }
}
