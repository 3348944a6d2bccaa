/**
 * One installed kernel (`kman::KernelInfo` of src/mtree/kerman.rs): the
 * module tree `/lib/modules/<version>`, the path of its `modules.dep`,
 * whether real modules exist for it (a `kernel` subdirectory), and the
 * dependency map read from `modules.dep` once, when the value is built.
 */
module Kerman {
  import opened Sys
  import opened Text
  import Maps

  const ModulesDir := "/lib/modules"
  const ModDepFile := "modules.dep"

  /** Module path to the list of its dependencies, as written in modules.dep. */
  type DepMap = map<string, seq<string>>

  /**
   * The dependency list of a modules.dep line, given its trimmed
   * right-hand side: nothing for an empty side, otherwise the pieces
   * between single spaces (two spaces in a row give an empty piece).
   */
  function DepList(deps: string): (r: seq<string>)
    ensures deps == "" ==> r == []
    ensures deps != "" ==> |r| == multiset(deps)[' '] + 1 && JoinOn(r, " ") == deps
    ensures forall k :: 0 <= k < |r| ==> ' ' !in r[k]
  {
    if deps == "" then []
    else
      SplitCharCount(deps, ' ');
      SplitOnJoin(deps, " ");
      SplitOn(deps, " ")
  }

  /**
   * One line of modules.dep: None without a ':'; otherwise the trimmed text
   * before the first ':' as the module path, and the dependency list of
   * the trimmed text after it (which may hold further ':').
   */
  function ParseDepLine(line: string): (r: Option<(string, seq<string>)>)
    ensures r.None? <==> ':' !in line
  {
    match SplitOnce(line, ':')
    case None => None
    case Some((left, right)) => Some((Trim(left), DepList(Trim(right))))
  }

  /** What a line with a ':' yields, in terms of the position of its first ':'. */
  lemma ParseDepLineSplit(line: string)
    requires ':' in line
    ensures var i := IndexOf(line, ':');
      ParseDepLine(line) == Some((Trim(line[..i]), DepList(Trim(line[i + 1..]))))
  {
    var (left, right) := SplitOnce(line, ':').value;
    IndexOfConcat(left, ':', right);
    assert line[..|left|] == left && line[|left| + 1..] == right;
  }

  /** A dependency as modules.dep writes it: a non-empty path without whitespace or ':'. */
  predicate PlainDep(d: string) {
    |d| > 0 && ':' !in d && forall k :: 0 <= k < |d| ==> !IsSpace(d[k])
  }

  /** Dependencies as modules.dep writes them. */
  predicate AllPlain(deps: seq<string>) {
    forall k :: 0 <= k < |deps| ==> PlainDep(deps[k])
  }

  /** The trimmed right-hand side `" <dep> <dep> ..."` is the joined dependencies. */
  lemma PlainDepsTrim(deps: seq<string>)
    requires AllPlain(deps)
    ensures Trim([' '] + JoinOn(deps, " ")) == JoinOn(deps, " ")
  {
    var value := JoinOn(deps, " ");
    if |deps| == 0 {
      AllSpaceTrimsEmpty([' ']);
      assert [' '] + value == [' '];
    } else {
      JoinOnEnds(deps, " ");
      assert PlainDep(deps[0]) && PlainDep(deps[|deps| - 1]);
      assert Trimmed(value);
      TrimPadded([' '], value, []);
      assert [' '] + value + [] == [' '] + value;
    }
  }

  /** `DepList` splits joined dependencies back into those dependencies. */
  lemma PlainDepsSplit(deps: seq<string>)
    requires AllPlain(deps)
    ensures DepList(JoinOn(deps, " ")) == deps
  {
    if |deps| > 0 {
      JoinOnEnds(deps, " ");
      assert PlainDep(deps[0]);
      forall k | 0 <= k < |deps| ensures ' ' !in deps[k] {
        assert PlainDep(deps[k]);
      }
      SplitJoinChar(deps, ' ');
    }
  }

  /** The line `<module>: <dep> <dep> ...` that `depmod` writes gives back that module and those dependencies. */
  lemma ParseDepLineFormatted(name: string, deps: seq<string>)
    requires Trimmed(name) && ':' !in name
    requires AllPlain(deps)
    ensures ParseDepLine(name + [':', ' '] + JoinOn(deps, " ")) == Some((name, deps))
  {
    var rhs := [' '] + JoinOn(deps, " ");
    var line := name + [':'] + rhs;
    assert name + [':', ' '] + JoinOn(deps, " ") == line;
    IndexOfConcat(name, ':', rhs);
    assert line[..|name|] == name && line[|name| + 1..] == rhs;
    ParseDepLineSplit(line);
    TrimTrimmed(name);
    PlainDepsTrim(deps);
    PlainDepsSplit(deps);
  }

  /** The (module, dependencies) entries of the lines of modules.dep, in line order. */
  function DepEntries(lines: seq<string>): seq<(string, seq<string>)> {
    Maps.FilterMap(lines, ParseDepLine)
  }

  /** The dependency map `load_deps` builds from the text of modules.dep. */
  function ParseDeps(text: string): DepMap {
    Maps.InsertAll(map[], DepEntries(Lines(text)))
  }

  /** The modules of the map are exactly the trimmed left sides of the lines that have a ':'. */
  lemma ParseDepsKeys(text: string)
    ensures forall name :: name in ParseDeps(text) <==> Maps.LineNames(Lines(text), ParseDepLine, name)
  {
    Maps.KeysFromLines(Lines(text), ParseDepLine);
  }

  /** A line without ':' leaves the dependency map as it would be without that line. */
  lemma LineWithoutColonIgnored(pre: seq<string>, line: string, post: seq<string>)
    requires ':' !in line
    ensures DepEntries(pre + [line] + post) == DepEntries(pre + post)
  {
    Maps.FilterMapConcat(pre, [line], ParseDepLine);
    Maps.FilterMapConcat(pre + [line], post, ParseDepLine);
    Maps.FilterMapConcat(pre, post, ParseDepLine);
    assert Maps.FilterMap([line], ParseDepLine) == [];
  }

  /**
   * When several lines name the same module, the last of them decides its
   * dependency list.
   */
  lemma LaterLineReplaces(m: DepMap, pre: seq<string>, line: string, post: seq<string>, key: string, deps: seq<string>)
    requires ParseDepLine(line) == Some((key, deps))
    requires forall j :: 0 <= j < |post| ==> ParseDepLine(post[j]).None? || ParseDepLine(post[j]).value.0 != key
    ensures key in Maps.InsertAll(m, DepEntries(pre + [line] + post))
    ensures Maps.InsertAll(m, DepEntries(pre + [line] + post))[key] == deps
  {
    Maps.LastLineWins(m, pre, line, post, ParseDepLine);
  }

  /** `/lib/modules/<version>`. */
  function VersionPath(version: string): string {
    Join(ModulesDir, version)
  }

  /** `dep_path`: the empty path joined with the version path, then with `modules.dep`. */
  function DepPathOf(version: string): string {
    Join(Join("", VersionPath(version)), ModDepFile)
  }

  /** The directory whose existence makes a kernel valid: `/lib/modules/<version>/kernel`. */
  function KernelDir(version: string): string {
    Join(Join(ModulesDir, version), "kernel")
  }

  /** For a version that is a plain directory name the paths are the documented ones. */
  lemma PathsOfPlainVersion(version: string)
    requires |version| > 0 && '/' !in version
    ensures VersionPath(version) == "/lib/modules/" + version
    ensures DepPathOf(version) == "/lib/modules/" + version + "/modules.dep"
    ensures KernelDir(version) == "/lib/modules/" + version + "/kernel"
  {
    assert version[0] != '/' && version[|version| - 1] != '/';
    var p := "/lib/modules/" + version;
    assert p[|p| - 1] == version[|version| - 1];
    JoinComponent(ModulesDir, version);
    JoinComponent(p, ModDepFile);
    JoinComponent(p, "kernel");
  }

  /** Reading modules.dep of a valid kernel panics (`unwrap`) when the file cannot be read. */
  predicate NewPanics(fs: FileSystem, version: string) {
    fs.IsDir(KernelDir(version)) && fs.ReadToString(DepPathOf(version)).Err?
  }

  class KernelInfo {
    const version: string
    var path: string
    var depPath: string
    var deplist: DepMap
    var isValid: bool
    var loaded: bool

    /** The struct literal of `new`, before `init` runs. */
    constructor Bare(kver: string)
      ensures version == kver && path == ModulesDir && depPath == ""
      ensures deplist == map[] && !isValid && !loaded
    {
      version := kver;
      path := ModulesDir;
      depPath := "";
      deplist := map[];
      isValid := false;
      loaded := false;
    }

    /** The state `new` leaves when it returns: paths derived, validity and dependencies read from `fs`. */
    ghost predicate InitialisedFrom(fs: FileSystem)
      reads this
    {
      && loaded
      && path == VersionPath(version)
      && depPath == DepPathOf(version)
      && isValid == fs.IsDir(KernelDir(version))
      && (if isValid then fs.ReadToString(depPath).Ok? && deplist == ParseDeps(fs.ReadToString(depPath).value)
          else deplist == map[])
    }

    /**
     * `KernelInfo::new`: the bare struct, initialised once against `fs`.
     * `aborted` stands for the panic of `read_to_string(..).unwrap()` when
     * a valid kernel's modules.dep cannot be read.
     */
    static method New(kver: string, fs: FileSystem) returns (k: KernelInfo, aborted: bool)
      ensures fresh(k) && k.version == kver
      ensures aborted <==> NewPanics(fs, kver)
      ensures !aborted ==> k.InitialisedFrom(fs)
    {
      k := new KernelInfo.Bare(kver);
      aborted := k.Init(fs);
    }

    /**
     * `init`: derive `path` and `dep_path`, load the dependencies and mark
     * the value loaded; on an already loaded value it changes nothing.
     */
    method Init(fs: FileSystem) returns (aborted: bool)
      modifies this
      ensures old(loaded) ==> !aborted && unchanged(this)
      ensures !old(loaded) ==> path == Join(old(path), version)
      ensures !old(loaded) ==> depPath == Join(Join(old(depPath), path), ModDepFile)
      ensures !old(loaded) ==> isValid == fs.IsDir(KernelDir(version))
      ensures !old(loaded) ==> (aborted <==> isValid && fs.ReadToString(depPath).Err?)
      ensures !old(loaded) && !aborted ==> loaded
      ensures !old(loaded) && !aborted && isValid ==>
        deplist == Maps.InsertAll(old(deplist), DepEntries(Lines(fs.ReadToString(depPath).value)))
      ensures !old(loaded) && !isValid ==> deplist == old(deplist)
    {
      if loaded {
        return false;
      }
      path := Join(path, version);
      depPath := Join(Join(depPath, path), ModDepFile);
      aborted := LoadDeps(fs);
      if aborted {
        return;
      }
      loaded := true;
    }

    /**
     * `load_deps`: unless already loaded, decide validity from the
     * `kernel` directory and, for a valid kernel, insert the entry of every
     * modules.dep line that has a ':' into `deplist`.
     */
    method LoadDeps(fs: FileSystem) returns (aborted: bool)
      modifies this`isValid, this`deplist
      ensures old(loaded) ==> !aborted && isValid == old(isValid) && deplist == old(deplist)
      ensures !old(loaded) ==> isValid == fs.IsDir(KernelDir(version))
      ensures !old(loaded) ==> (aborted <==> isValid && fs.ReadToString(depPath).Err?)
      ensures !old(loaded) && !aborted && isValid ==>
        deplist == Maps.InsertAll(old(deplist), DepEntries(Lines(fs.ReadToString(depPath).value)))
      ensures !old(loaded) && !isValid ==> deplist == old(deplist)
    {
      if loaded {
        return false;
      }
      isValid := fs.IsDir(Join(Join(ModulesDir, version), "kernel"));
      if isValid {
        var read := fs.ReadToString(depPath);
        if read.Err? {
          return true;
        }
        var lines := Lines(read.value);
        for i := 0 to |lines|
          invariant isValid
          invariant deplist == Maps.InsertAll(old(deplist), DepEntries(lines[..i]))
        {
          var entry := ParseDepLine(lines[i]);
          Maps.InsertLineStep(old(deplist), lines, i, ParseDepLine);
          if entry.Some? {
            deplist := deplist[entry.value.0 := entry.value.1];
          }
        }
        assert lines[..|lines|] == lines;
      }
      return false;
    }

    /** `is_valid`. */
    function IsValid(): bool
      reads this
    {
      isValid
    }

    /** `get_mod_dep`: in this version of the code an empty list, whatever the name. */
    function GetModDep(name: string): (r: seq<string>)
      ensures r == []
    {
      []
    }

    /** `get_deps_for`: in this version of the code an empty list, whatever the names. */
    function GetDepsFor(names: seq<string>): (r: seq<string>)
      ensures r == []
    {
      []
    }
  }

  /** After `new`, `is_valid` says whether the kernel has a `kernel` directory. */
  lemma IsValidAfterNew(k: KernelInfo, fs: FileSystem)
    requires k.InitialisedFrom(fs)
    ensures k.IsValid() <==> fs.IsDir(KernelDir(k.version))
  {
  }

  /** An entry of `read_dir("/lib/modules")`: its file name and whether it is a directory. */
  datatype DirEntry = DirEntry(name: string, isDir: bool)

  /** The version `get_kernel_infos` keeps for an entry: a directory with a `kernel` subdirectory. */
  function ValidVersion(fs: FileSystem): DirEntry -> Option<string> {
    (e: DirEntry) => if e.isDir && fs.IsDir(KernelDir(e.name)) then Some(e.name) else None
  }

  /** The versions `get_kernel_infos` keeps, in listing order. */
  function ValidVersions(entries: seq<DirEntry>, fs: FileSystem): seq<string> {
    Maps.FilterMap(entries, ValidVersion(fs))
  }

  /** Building the KernelInfo of this entry panics. */
  function PanicsAt(fs: FileSystem): DirEntry -> bool {
    (e: DirEntry) => e.isDir && NewPanics(fs, e.name)
  }

  /** Some directory of the listing names a valid kernel whose modules.dep cannot be read. */
  predicate ListingPanics(entries: seq<DirEntry>, fs: FileSystem) {
    Maps.AnyOf(entries, PanicsAt(fs))
  }

  /**
   * `get_kernel_infos`: a KernelInfo for each directory of the listing of
   * /lib/modules, keeping only the valid ones, in listing order. `aborted`
   * stands for the panics: no listing (`read_dir(..).unwrap()`), or a
   * valid kernel whose modules.dep cannot be read.
   */
  method GetKernelInfos(listing: Option<seq<DirEntry>>, fs: FileSystem) returns (kernels: seq<KernelInfo>, aborted: bool)
    ensures aborted <==> listing.None? || ListingPanics(listing.value, fs)
    ensures !aborted ==> |kernels| == |ValidVersions(listing.value, fs)|
    ensures !aborted ==> forall i :: 0 <= i < |kernels| ==> kernels[i].version == ValidVersions(listing.value, fs)[i]
    ensures !aborted ==> forall i :: 0 <= i < |kernels| ==> kernels[i].InitialisedFrom(fs) && kernels[i].isValid
  {
    kernels := [];
    if listing.None? {
      return kernels, true;
    }
    var entries := listing.value;
    for i := 0 to |entries|
      invariant !ListingPanics(entries[..i], fs)
      invariant |kernels| == |ValidVersions(entries[..i], fs)|
      invariant forall j :: 0 <= j < |kernels| ==> kernels[j].version == ValidVersions(entries[..i], fs)[j]
      invariant forall j :: 0 <= j < |kernels| ==> kernels[j].InitialisedFrom(fs) && kernels[j].isValid
    {
      Maps.FilterMapStep(entries, i, ValidVersion(fs));
      Maps.AnyOfStep(entries, i, PanicsAt(fs));
      var e := entries[i];
      if e.isDir {
        var k, panicked := KernelInfo.New(e.name, fs);
        if panicked {
          assert ListingPanics(entries, fs) by {
            assert PanicsAt(fs)(entries[i]);
          }
          return kernels, true;
        }
        if k.IsValid() {
          kernels := kernels + [k];
        }
      }
    }
    assert entries[..|entries|] == entries;
    aborted := false;
  }
}
