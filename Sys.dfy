/**
 * What the modelled code needs from its surroundings: optional values and
 * results, the I/O error kinds it reports, a snapshot of the filesystem it
 * reads (files and directories are parameters, never touched), and the
 * Unix path joining of `PathBuf::join`.
 */
module Sys {

  datatype Option<+T> = None | Some(value: T)

  datatype Result<+T, +E> = Ok(value: T) | Err(error: E)

  /** The `std::io::ErrorKind`s the modelled code produces or passes on. */
  datatype ErrorKind = NotFound | PermissionDenied | Other

  /** What opening a file yields: its text, or the error `File::open` reports. */
  datatype FileContent = Text(text: string) | Unreadable(kind: ErrorKind)

  /**
   * A read-only snapshot of the filesystem: the paths that are directories
   * and the paths that are regular files. Paths are compared as strings;
   * no normalisation (`//`, `.`, symbolic links) is modelled.
   */
  datatype FileSystem = FileSystem(dirs: set<string>, files: map<string, FileContent>)
  {
    /** `Path::is_dir`. */
    predicate IsDir(p: string) {
      p in dirs
    }

    /** `Path::exists` for a regular file. */
    predicate FileExists(p: string) {
      p in files
    }

    /** `fs::read_to_string`: the text, or the error kind (NotFound when absent). */
    function ReadToString(p: string): (r: Result<string, ErrorKind>)
      ensures r.Ok? <==> p in files && files[p].Text?
      ensures r.Ok? ==> r.value == files[p].text
      ensures p !in files ==> r == Err(NotFound)
    {
      if p !in files then Err(NotFound)
      else match files[p]
        case Text(t) => Ok(t)
        case Unreadable(k) => Err(k)
    }
  }

  predicate IsAbsolute(p: string) {
    |p| > 0 && p[0] == '/'
  }

  /**
   * `PathBuf::join` on Unix: an absolute `part` replaces `base`; otherwise a
   * '/' is put between them unless `base` is empty or already ends in '/'.
   */
  function Join(base: string, part: string): string
  {
    if IsAbsolute(part) then part
    else if |base| == 0 || base[|base| - 1] == '/' then base + part
    else base + "/" + part
  }

  /** An absolute part replaces the base; a relative one keeps the base as prefix and ends the result. */
  lemma JoinParts(base: string, part: string)
    ensures IsAbsolute(part) ==> Join(base, part) == part
    ensures !IsAbsolute(part) ==> var r := Join(base, part);
      |r| >= |base| + |part| && r[..|base|] == base && r[|r| - |part|..] == part
  {
  }

  /** A relative component joined to an absolute base that does not end in '/' is separated by exactly one '/'. */
  lemma JoinComponent(base: string, part: string)
    requires |base| > 0 && base[|base| - 1] != '/'
    requires !IsAbsolute(part)
    ensures Join(base, part) == base + "/" + part
  {
  }
}
