/**
 * The dpkg status database as limopack edits it (`DpkgMod` of
 * src/pakmod/dpkgmod.rs): the text of /var/lib/dpkg/status cut into
 * stanzas at each exact "\n\n" (a line of spaces or "\r\n\r\n" does not
 * separate stanzas), and the removal of every stanza that belongs to a
 * named package, kept in memory only.
 */
module Pakmod {
  import opened Sys
  import opened Text
  import Maps

  const DpkgStatus := "/var/lib/dpkg/status"

  /** `chop_field`: the trimmed value after the first ':' of a line, or "" when it has none. */
  function ChopField(line: string): (r: string)
    ensures ':' !in line ==> r == ""
    ensures ':' in line ==> r == Trim(line[IndexOf(line, ':') + 1..])
  {
    match SplitOnce(line, ':')
    case None => ""
    case Some((field, value)) =>
      IndexOfConcat(field, ':', value);
      assert line[|field| + 1..] == value;
      Trim(value)
  }

  /** A line written as `<field>: <value>` gives back its value. */
  lemma ChopFieldOfFormatted(field: string, value: string)
    requires ':' !in field && Trimmed(value)
    ensures ChopField(field + [':', ' '] + value) == value
  {
    var line := field + [':', ' '] + value;
    assert line == field + [':'] + ([' '] + value);
    IndexOfConcat(field, ':', [' '] + value);
    assert line[|field| + 1..] == [' '] + value;
    TrimPadded([' '], value, []);
    assert [' '] + value + [] == [' '] + value;
  }

  /**
   * `is_package`: the stanza belongs to package `name` when the value of
   * its first line (the text before the first "\n") is `name`; the field
   * name on that line is not looked at.
   */
  function IsPackage(name: string, data: string): bool {
    name == ChopField(SplitOn(data, ['\n'])[0])
  }

  /** The text before the first "\n" of a stanza, or all of it when it has none. */
  function FirstLine(data: string): string {
    if '\n' in data then data[..IndexOf(data, '\n')] else data
  }

  /** A stanza belongs to `name` exactly when `chop_field` of its first line is `name`. */
  lemma IsPackageMeaning(name: string, data: string)
    ensures IsPackage(name, data) <==> name == ChopField(FirstLine(data))
  {
    SplitOnChar(data, '\n');
  }

  /** Only the first line of a stanza decides whether it belongs to a package. */
  lemma IsPackageFirstLine(name: string, first: string, rest: string)
    requires '\n' !in first
    ensures IsPackage(name, first + ['\n'] + rest) <==> name == ChopField(first)
    ensures IsPackage(name, first) <==> name == ChopField(first)
  {
    var data := first + ['\n'] + rest;
    IndexOfConcat(first, '\n', rest);
    assert data[..|first|] == first;
    SplitOnChar(data, '\n');
    SplitOnChar(first, '\n');
  }

  /** The stanzas `remove_package` drops: those that belong to `pn`. */
  function Matches(pn: string): string -> bool {
    p => IsPackage(pn, p)
  }

  /** The package list after every stanza of `pn` is taken out, the others kept in order. */
  function Without(pn: string, ps: seq<string>): seq<string> {
    Maps.FilterMap(ps, Maps.Drop(Matches(pn)))
  }

  /** Removal works stanza by stanza: the result for two runs of stanzas is the two results joined. */
  lemma WithoutConcat(pn: string, a: seq<string>, b: seq<string>)
    ensures Without(pn, a + b) == Without(pn, a) + Without(pn, b)
  {
    Maps.FilterMapConcat(a, b, Maps.Drop(Matches(pn)));
  }

  /** No stanza of `pn` is left, and every stanza left was in the list. */
  lemma WithoutRemovesAll(pn: string, ps: seq<string>)
    ensures forall k :: 0 <= k < |Without(pn, ps)| ==> !IsPackage(pn, Without(pn, ps)[k]) && Without(pn, ps)[k] in ps
  {
    Maps.DropLeaves(ps, Matches(pn));
  }

  /** How many stanzas belong to `pn`. */
  function CountMatches(pn: string, ps: seq<string>): nat {
    Maps.Count(ps, Matches(pn))
  }

  /** The list shrinks by exactly the number of stanzas that belong to `pn`. */
  lemma WithoutCount(pn: string, ps: seq<string>)
    ensures |Without(pn, ps)| + CountMatches(pn, ps) == |ps|
  {
    Maps.DropCount(ps, Matches(pn));
  }

  /** Every stanza that does not belong to `pn` is kept. */
  lemma WithoutKeeps(pn: string, ps: seq<string>, k: nat)
    requires k < |ps| && !IsPackage(pn, ps[k])
    ensures ps[k] in Without(pn, ps)
  {
    Maps.DropKeeps(ps, Matches(pn), k);
  }

  /**
   * Something is removed exactly when some stanza belongs to `pn`; when
   * none does, the list comes back unchanged.
   */
  lemma WithoutShrinks(pn: string, ps: seq<string>)
    ensures Maps.AnyOf(ps, Matches(pn)) <==> |Without(pn, ps)| < |ps|
    ensures !Maps.AnyOf(ps, Matches(pn)) ==> Without(pn, ps) == ps
  {
    Maps.DropShrinks(ps, Matches(pn));
  }

  /** Removing a package a second time changes nothing. */
  lemma WithoutIdempotent(pn: string, ps: seq<string>)
    ensures Without(pn, Without(pn, ps)) == Without(pn, ps)
  {
    var r := Without(pn, ps);
    Maps.DropLeaves(ps, Matches(pn));
    assert !Maps.AnyOf(r, Matches(pn));
    Maps.DropShrinks(r, Matches(pn));
  }

  /** The stanzas of the status file: its text split at each "\n\n", or none when it cannot be read. */
  function StatusStanzas(fs: FileSystem): seq<string> {
    match fs.ReadToString(DpkgStatus)
    case Ok(text) => SplitOn(text, ['\n', '\n'])
    case Err(_) => []
  }

  /** Cutting the status text into stanzas loses nothing: joining them with "\n\n" gives the text back. */
  lemma StanzasJoin(fs: FileSystem)
    requires fs.ReadToString(DpkgStatus).Ok?
    ensures JoinOn(StatusStanzas(fs), ['\n', '\n']) == fs.ReadToString(DpkgStatus).value
  {
    SplitOnJoin(fs.ReadToString(DpkgStatus).value, ['\n', '\n']);
  }

  class DpkgMod {
    var packages: seq<string>

    /** The struct literal of `new`, before `load`. */
    constructor Empty()
      ensures packages == []
    {
      packages := [];
    }

    /** `DpkgMod::new`: the stanzas of the status file, or none when it cannot be read. */
    static method New(fs: FileSystem) returns (d: DpkgMod)
      ensures fresh(d) && d.packages == StatusStanzas(fs)
    {
      var empty := new DpkgMod.Empty();
      d := empty.Load(fs);
    }

    /**
     * `load`: append the stanzas of the status file (an unreadable file adds
     * none) and return a copy of the result.
     */
    method Load(fs: FileSystem) returns (copy: DpkgMod)
      modifies this
      ensures packages == old(packages) + StatusStanzas(fs)
      ensures fresh(copy) && copy.packages == packages
    {
      match fs.ReadToString(DpkgStatus) {
        case Ok(data) =>
          packages := packages + SplitOn(data, ['\n', '\n']);
        case Err(_) =>
      }
      copy := new DpkgMod.Empty();
      copy.packages := packages;
    }

    /**
     * `remove_package`: drop every stanza that belongs to `pn`, keeping the
     * others in order. Ok when at least one was dropped, otherwise a
     * NotFound error with the list left as it was.
     */
    method RemovePackage(pn: string) returns (r: Result<(), ErrorKind>)
      modifies this
      ensures packages == Without(pn, old(packages))
      ensures r.Ok? <==> Maps.AnyOf(old(packages), Matches(pn))
      ensures r.Err? ==> r.error == NotFound && packages == old(packages)
    {
      var ps := packages;
      var matches := Matches(pn);
      var buff: seq<string> := [];
      var found := false;
      for i := 0 to |ps|
        invariant buff == Maps.FilterMap(ps[..i], Maps.Drop(matches))
        invariant found <==> Maps.AnyOf(ps[..i], matches)
      {
        Maps.FilterMapStep(ps, i, Maps.Drop(matches));
        Maps.AnyOfStep(ps, i, matches);
        if !matches(ps[i]) {
          buff := buff + [ps[i]];
        } else {
          found := true;
        }
      }
      assert ps[..|ps|] == ps;
      WithoutShrinks(pn, ps);
      packages := [];
      packages := packages + buff;
      if found {
        r := Ok(());
      } else {
        r := Err(NotFound);
      }
    }

    /** `save`: in this version of the code only logs; it succeeds and writes nothing. */
    method Save() returns (r: Result<(), ErrorKind>)
      ensures r.Ok?
    {
      r := Ok(());
    }
  }
}
