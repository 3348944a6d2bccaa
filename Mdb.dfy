/**
 * The module registry of one kernel (`ModList` of src/mdb/modlist.rs):
 * the file `/lib/modules/<version>/modules.active`, one `<module path>:<marker>`
 * line per tracked module, read into a map from module path to marker. A
 * marker is a reference count, or "S" (stored as -1) for a static module.
 */
module Mdb {
  import opened Sys
  import opened Text
  import opened Int16
  import Kerman
  import Maps

  const ModStorFile := "modules.active"

  /** The marker of a static module. */
  const Static: i16 := -1

  /** `get_storage_path`: `/lib/modules`, joined with the version, joined with `modules.active`. */
  function StoragePath(version: string): (r: string)
    ensures IsAbsolute(r)
    ensures |r| >= |ModStorFile| && r[|r| - |ModStorFile|..] == ModStorFile
  {
    var dir := Join(Kerman.ModulesDir, version);
    JoinParts(Kerman.ModulesDir, version);
    assert IsAbsolute(dir) by {
      if !IsAbsolute(version) {
        assert dir[..|Kerman.ModulesDir|] == Kerman.ModulesDir;
      }
    }
    JoinParts(dir, ModStorFile);
    assert Join(dir, ModStorFile)[..|dir|] == dir;
    Join(dir, ModStorFile)
  }

  /** For a version that is a plain directory name the registry is the documented file. */
  lemma StoragePathOfPlainVersion(version: string)
    requires |version| > 0 && '/' !in version
    ensures StoragePath(version) == "/lib/modules/" + version + "/modules.active"
  {
    Kerman.PathsOfPlainVersion(version);
    var p := "/lib/modules/" + version;
    assert p[|p| - 1] == version[|version| - 1];
    JoinComponent(p, ModStorFile);
  }

  /** What one line of the registry amounts to. */
  datatype LineEntry =
    | Skip                              // a comment, a blank line, or not exactly one ':'
    | Entry(name: string, marker: i16)  // a module and its marker
    | Malformed                         // a marker `parse::<i16>().unwrap()` panics on

  /** The marker text of a line: "S" for a static module, otherwise a 16-bit integer. */
  function ParseMarker(text: string): Option<i16> {
    if text == "S" then Some(Static) else ParseI16(text)
  }

  /** The entry of a module with a marker text; a marker `parse::<i16>().unwrap()` rejects makes the line malformed. */
  function MarkerEntry(name: string, text: string): LineEntry {
    match ParseMarker(text)
    case None => Malformed
    case Some(v) => Entry(name, v)
  }

  /**
   * A trimmed registry line: skipped when it is a comment, empty, or does
   * not split on ':' into exactly two pieces; otherwise the first piece,
   * untrimmed, with the marker of the second.
   */
  function Classify(data: string): LineEntry {
    if StartsWith(data, '#') || |data| == 0 || ':' !in data then Skip
    else
      var kw := SplitOn(data, [':']);
      if |kw| != 2 then Skip else MarkerEntry(kw[0], kw[1])
  }

  /** One line of the registry as `load` reads it: trimmed, then classified. */
  function RegistryLine(line: string): LineEntry {
    Classify(Trim(line))
  }

  /** A line with exactly one ':' splits into the text before it and the text after it. */
  lemma SplitOneColon(data: string)
    requires multiset(data)[':'] == 1
    ensures ':' in data
    ensures var i := IndexOf(data, ':'); SplitOn(data, [':']) == [data[..i], data[i + 1..]]
  {
    assert ':' in data;
    var i := IndexOf(data, ':');
    assert data == data[..i] + [':'] + data[i + 1..];
    assert multiset(data)[':'] == multiset(data[..i])[':'] + 1 + multiset(data[i + 1..])[':'];
    assert ':' !in data[i + 1..];
    SplitOnChar(data, ':');
    SplitOnChar(data[i + 1..], ':');
  }

  /** `Classify` in terms of the first ':' of the trimmed line and the number of ':' in it. */
  lemma ClassifyMeaning(d: string)
    ensures Classify(d).Skip? <==> StartsWith(d, '#') || |d| == 0 || multiset(d)[':'] != 1
    ensures !Classify(d).Skip? ==> ':' in d && Classify(d) == MarkerEntry(d[..IndexOf(d, ':')], d[IndexOf(d, ':') + 1..])
  {
    if ':' in d {
      SplitCharCount(d, ':');
      if multiset(d)[':'] == 1 {
        SplitOneColon(d);
      }
    } else {
      assert multiset(d)[':'] == 0;
    }
  }

  /**
   * The meaning of a registry line, stated on its trimmed text: it is
   * skipped exactly when that text is a comment, empty, or holds other
   * than one ':'; otherwise the module is the text before the ':' and the
   * marker the text after it, which must be "S" or an `i16` literal.
   */
  lemma RegistryLineMeaning(line: string)
    ensures var d := Trim(line);
      RegistryLine(line).Skip? <==> StartsWith(d, '#') || |d| == 0 || multiset(d)[':'] != 1
    ensures var d := Trim(line);
      !RegistryLine(line).Skip? ==> ':' in d && RegistryLine(line) == MarkerEntry(d[..IndexOf(d, ':')], d[IndexOf(d, ':') + 1..])
  {
    ClassifyMeaning(Trim(line));
  }

  /** The (module, marker) entry of a line, if it has one. */
  function EntryOf(line: string): Option<(string, i16)> {
    match RegistryLine(line)
    case Entry(name, v) => Some((name, v))
    case _ => None
  }

  /** A line that makes `load` panic. */
  function MalformedLine(line: string): bool {
    RegistryLine(line).Malformed?
  }

  /** The registry map of a readable registry text in which no line is malformed. */
  function Registry(text: string): map<string, i16> {
    Maps.InsertAll(map[], Maps.FilterMap(Lines(text), EntryOf))
  }

  /** The text of a static marker or a reference count, as the file format writes it. */
  function MarkerText(v: i16): string {
    if v == Static then "S" else Decimal(v)
  }

  /** A name a registry line can carry and read back unchanged. */
  predicate PlainName(name: string) {
    ':' !in name && !StartsWith(name, '#') && (|name| == 0 || !IsSpace(name[0]))
  }

  /** A line `<name>:<marker text>` needs no trimming when neither end is whitespace. */
  lemma ColonLineTrimmed(name: string, m: string)
    requires PlainName(name) && (|m| == 0 || !IsSpace(m[|m| - 1]))
    ensures var line := name + [':'] + m; Trim(line) == line && |line| > 0 && !StartsWith(line, '#')
  {
    var line := name + [':'] + m;
    assert line[0] == (if |name| > 0 then name[0] else ':');
    assert line[|line| - 1] == (if |m| > 0 then m[|m| - 1] else ':');
    TrimTrimmed(line);
  }

  /** Its only ':' is the one after the name. */
  lemma ColonLineSplit(name: string, m: string)
    requires ':' !in name && ':' !in m
    ensures var line := name + [':'] + m;
      && multiset(line)[':'] == 1 && ':' in line && IndexOf(line, ':') == |name|
      && line[..|name|] == name && line[|name| + 1..] == m
  {
    IndexOfConcat(name, ':', m);
    var line := name + [':'] + m;
    assert line[..|name|] == name && line[|name| + 1..] == m;
  }

  /** Untrimmed, such a line is classified by its marker text. */
  lemma ColonLineClassified(name: string, m: string)
    requires PlainName(name) && ':' !in m
    ensures Classify(name + [':'] + m) == MarkerEntry(name, m)
  {
    var line := name + [':'] + m;
    assert line[0] == (if |name| > 0 then name[0] else ':');
    ColonLineSplit(name, m);
    ClassifyMeaning(line);
  }

  /** Such a line is decided by its marker text. */
  lemma ColonLine(name: string, m: string)
    requires PlainName(name) && ':' !in m && (|m| == 0 || !IsSpace(m[|m| - 1]))
    ensures RegistryLine(name + [':'] + m) == MarkerEntry(name, m)
  {
    ColonLineTrimmed(name, m);
    ColonLineClassified(name, m);
  }

  /** A line written in the documented format, `<module path>:<marker>`, reads back as that entry. */
  lemma EntryLineRoundTrip(name: string, v: i16)
    requires PlainName(name)
    ensures RegistryLine(name + [':'] + MarkerText(v)) == Entry(name, v)
  {
    var m := MarkerText(v);
    if v != Static {
      ParseDecimal(v);
      if v < 0 {
        assert m == "-" + DigitsOf(-(v as int));
      }
      assert IsDigit(m[|m| - 1]);
      assert m != "S" by {
        assert m[0] == '-' || IsDigit(m[0]);
      }
      assert ':' !in m by {
        forall k | 0 <= k < |m| ensures m[k] != ':' {
          assert m[k] == '-' || IsDigit(m[k]);
        }
      }
    }
    ColonLine(name, m);
  }

  /** A marker with a space before it does not parse: `load` panics on "a.ko: 1". */
  lemma SpacedMarkerMalformed()
    ensures RegistryLine("a.ko: 1") == Malformed
  {
    var m := " 1";
    ParseRejectsLeadingOther(m);
    assert m != "S";
    ColonLine("a.ko", m);
    assert "a.ko" + [':'] + " 1" == "a.ko: 1";
  }

  /** An empty marker does not parse either: `load` panics on "a.ko:". */
  lemma MissingMarkerMalformed()
    ensures RegistryLine("a.ko:") == Malformed
  {
    ColonLine("a.ko", "");
    assert "a.ko" + [':'] + "" == "a.ko:";
  }

  /** The modules of the registry are exactly those of its entry lines. */
  lemma RegistryKeys(text: string)
    ensures forall name :: name in Registry(text) <==> Maps.LineNames(Lines(text), EntryOf, name)
  {
    Maps.KeysFromLines(Lines(text), EntryOf);
  }

  /** When several lines name the same module, the last of them decides its marker. */
  lemma LaterLineReplaces(pre: seq<string>, line: string, post: seq<string>, name: string, v: i16)
    requires RegistryLine(line) == Entry(name, v)
    requires forall j :: 0 <= j < |post| ==> !RegistryLine(post[j]).Entry? || RegistryLine(post[j]).name != name
    ensures var m := Maps.InsertAll(map[], Maps.FilterMap(pre + [line] + post, EntryOf));
      name in m && m[name] == v
  {
    Maps.LastLineWins(map[], pre, line, post, EntryOf);
  }

  class ModList {
    var modlist: map<string, i16>
    const kinfo: Kerman.KernelInfo

    /** The struct literal of `new`: an empty map for the kernel. */
    constructor Empty(kinfo: Kerman.KernelInfo)
      ensures this.kinfo == kinfo && modlist == map[]
    {
      this.kinfo := kinfo;
      modlist := map[];
    }

    /**
     * `load`: without a registry file nothing is read and the result is
     * Ok; a file that cannot be opened gives its error; otherwise every
     * entry line is inserted in turn. `aborted` stands for the panic of
     * `parse::<i16>().unwrap()` on a malformed marker.
     */
    method Load(fs: FileSystem) returns (r: Result<(), ErrorKind>, aborted: bool)
      modifies this`modlist
      ensures var p := StoragePath(kinfo.version);
        && (!fs.FileExists(p) ==> r.Ok? && !aborted && modlist == old(modlist))
        && (fs.FileExists(p) && fs.files[p].Unreadable? ==> r == Err(fs.files[p].kind) && !aborted && modlist == old(modlist))
        && (fs.FileExists(p) && fs.files[p].Text? ==>
              var lines := Lines(fs.files[p].text);
              && (aborted <==> Maps.AnyOf(lines, MalformedLine))
              && (!aborted ==> r.Ok? && modlist == Maps.InsertAll(old(modlist), Maps.FilterMap(lines, EntryOf))))
    {
      var path := StoragePath(kinfo.version);
      if !fs.FileExists(path) {
        return Ok(()), false;
      }
      if fs.files[path].Unreadable? {
        return Err(fs.files[path].kind), false;
      }
      var lines := Lines(fs.files[path].text);
      for i := 0 to |lines|
        invariant !Maps.AnyOf(lines[..i], MalformedLine)
        invariant modlist == Maps.InsertAll(old(modlist), Maps.FilterMap(lines[..i], EntryOf))
      {
        Maps.InsertLineStep(old(modlist), lines, i, EntryOf);
        Maps.AnyOfStep(lines, i, MalformedLine);
        match RegistryLine(lines[i]) {
          case Skip =>
          case Malformed =>
            assert Maps.AnyOf(lines, MalformedLine) by {
              assert MalformedLine(lines[i]);
            }
            return Ok(()), true;
          case Entry(name, v) =>
            modlist := modlist[name := v];
        }
      }
      assert lines[..|lines|] == lines;
      return Ok(()), false;
    }

    /**
     * `ModList::new`: the error of `load` when it fails, otherwise a
     * registry holding what `load` read.
     */
    static method New(kinfo: Kerman.KernelInfo, fs: FileSystem) returns (r: Result<ModList, ErrorKind>, aborted: bool)
      ensures r.Ok? ==> fresh(r.value) && r.value.kinfo == kinfo
      ensures var p := StoragePath(kinfo.version);
        && (!fs.FileExists(p) ==> r.Ok? && !aborted && r.value.modlist == map[])
        && (fs.FileExists(p) && fs.files[p].Unreadable? ==> r == Err(fs.files[p].kind) && !aborted)
        && (fs.FileExists(p) && fs.files[p].Text? ==>
              (aborted <==> Maps.AnyOf(Lines(fs.files[p].text), MalformedLine))
              && (!aborted ==> r.Ok? && r.value.modlist == Registry(fs.files[p].text)))
    {
      var list := new ModList.Empty(kinfo);
      var loaded;
      loaded, aborted := list.Load(fs);
      if loaded.Err? {
        return Err(loaded.error), aborted;
      }
      return Ok(list), aborted;
    }

    /** `add`: in this version of the code only logs the name; it succeeds and changes nothing. */
    method Add(name: string, isStatic: bool) returns (r: Result<(), ErrorKind>)
      ensures r.Ok?
    {
      return Ok(());
    }

    /** `remove`: in this version of the code only logs the name; it succeeds and changes nothing. */
    method Remove(name: string) returns (r: Result<(), ErrorKind>)
      ensures r.Ok?
    {
      return Ok(());
    }
  }
}
