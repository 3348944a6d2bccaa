# limopack core, modelled in Dafny

limopack keeps the kernel modules a system uses and drops the ones it
does not. Its core reads four kinds of data:

- **The kernels.** A kernel is a directory `/lib/modules/<version>`. It
  counts as valid when it has a `kernel` subdirectory. Its dependency map
  comes from `modules.dep`, whose lines look like
  `<module>: <dep> <dep> ...`.
- **The module tree.** It takes the dependency maps of named modules, or
  of the loaded modules when none are named. It merges them into one flat
  sorted list.
- **The module registry** `/lib/modules/<version>/modules.active`. It
  holds one `<module>:<marker>` line per module. The marker is a reference
  count, or `S` for a static module.
- **The dpkg status database** `/var/lib/dpkg/status`. It is cut into
  stanzas at each exact `"\n\n"`. A line of spaces or `"\r\n\r\n"` does
  not separate stanzas. The stanzas of one package can be removed in
  memory.

The project has one module per concern:

- `Sys`: options, results, I/O error kinds, a read-only filesystem
  snapshot, and `PathBuf::join`.
- `Text`: Rust's `trim`, `split_once`, `split` and `lines`.
- `Int16`: `parse::<i16>` and `i16` display.
- `Order`: string order and `Vec::sort`.
- `Maps`: filter-map over lines, `HashMap::insert` in a loop, and
  "some element satisfies".
- `Kerman`: `src/mtree/kerman.rs`.
- `ModDeps`: `src/mtree/moddeps.rs`.
- `Mdb`: `src/mdb/modlist.rs`.
- `Pakmod`: `src/pakmod/dpkgmod.rs`.

Structs whose fields the code updates in place are classes:
`KernelInfo`, `ModList` and `DpkgMod`. Their methods keep the source's
loops. Parsing is done by pure functions with lemmas about them.

Where the code panics through `unwrap`, the model returns an `aborted`
flag and states exactly when it is set. Examples are an unreadable
`modules.dep` of a valid kernel, and a registry marker that is not an
`i16`.

## Model

| member | source | states |
|---|---|---|
| Sys.FileSystem.ReadToString | src/mtree/kerman.rs:67-68 | reading succeeds exactly for an existing readable file and yields its text; a missing file is NotFound |
| Sys.JoinParts | src/mtree/kerman.rs:43 | joining an absolute part gives the part; a relative part keeps the base as prefix and ends the result |
| Text.TrimInfix | src/mdb/modlist.rs:87 | the trimmed line sits inside the line with only whitespace before and after it |
| Text.TrimPadded | src/mtree/kerman.rs:72 | trimming removes exactly the surrounding whitespace of a text whose ends are not whitespace |
| Text.SplitOnJoin | src/pakmod/dpkgmod.rs:42 | joining the pieces of `split` with the separator gives the text back |
| Text.SplitOnPieces | src/mdb/modlist.rs:91 | no piece of `split` contains the separator |
| Text.LinesConcat | src/mdb/modlist.rs:86 | the first line is the text before the first newline, less a final carriage return |
| Text.LinesUnlines | src/mtree/kerman.rs:67-69 | lines ended by newlines and free of line breaks come back from `lines` unchanged |
| Int16.ParseI16Meaning | src/mdb/modlist.rs:100 | `parse::<i16>` succeeds exactly on a signed decimal literal whose value fits in 16 bits, and gives that value |
| Int16.ParseRejectsLeadingOther | src/mdb/modlist.rs:100 | a text starting with neither a sign nor a digit does not parse |
| Int16.ParseDecimal | src/mdb/modlist.rs:97-101 | every i16 written in decimal parses back to itself |
| Order.Sort | src/mtree/moddeps.rs:52 | the sorted list is ordered and a permutation of the input |
| Order.SortedUnique | src/mtree/moddeps.rs:52 | two sorted lists with the same elements are equal, so the sort result is unique |
| Maps.LastWins | src/mtree/kerman.rs:86 | after inserting entries in turn, a key maps to the value of its last entry |
| Kerman.DepList | src/mtree/kerman.rs:73-80 | an empty right side gives no dependencies; otherwise one piece per space plus one, no piece contains a space, and joining them with spaces gives the side back |
| Kerman.ParseDepLine | src/mtree/kerman.rs:71 | a line yields an entry exactly when it contains ':' |
| Kerman.ParseDepLineSplit | src/mtree/kerman.rs:71-72 | the entry is the trimmed text before the first ':' and the dependency list of the trimmed text after it |
| Kerman.ParseDepLineFormatted | src/mtree/kerman.rs:71-80 | a line written as `<module>: <dep> <dep> ...` gives back that module and those dependencies, also when there are none |
| Kerman.ParseDepsKeys | src/mtree/kerman.rs:66-88 | the modules of the parsed map are exactly the trimmed left sides of the modules.dep lines that contain a ':' |
| Kerman.LineWithoutColonIgnored | src/mtree/kerman.rs:71 | a line without ':' contributes no entry wherever it stands |
| Kerman.LaterLineReplaces | src/mtree/kerman.rs:86 | when several lines name a module, the last one decides its dependency list |
| Kerman.PathsOfPlainVersion | src/mtree/kerman.rs:43-48 | for a plain version the module tree, modules.dep and kernel paths are `/lib/modules/<v>`, `/lib/modules/<v>/modules.dep` and `/lib/modules/<v>/kernel` |
| Kerman.KernelInfo.Bare | src/mtree/kerman.rs:25-33 | the struct literal: path `/lib/modules`, empty dep path and map, not valid, not loaded |
| Kerman.KernelInfo.New | src/mtree/kerman.rs:24-35 | it panics exactly when the kernel is valid and its modules.dep cannot be read; otherwise the value is loaded, with derived paths, validity from the `kernel` directory, and the parsed map for a valid kernel |
| Kerman.KernelInfo.Init | src/mtree/kerman.rs:38-53 | a loaded value is left unchanged; otherwise the paths are joined from the old ones, the dependencies loaded, and the value marked loaded |
| Kerman.KernelInfo.LoadDeps | src/mtree/kerman.rs:57-90 | guarded by the loaded flag: validity comes from the `kernel` directory, and a valid kernel's map gains the entry of every line in turn |
| Kerman.IsValidAfterNew | src/mtree/kerman.rs:94-96 | after `new`, `is_valid` holds exactly when the kernel has a `kernel` directory |
| Kerman.KernelInfo.GetModDep | src/mtree/kerman.rs:105-109 | the stub gives an empty list for every name |
| Kerman.KernelInfo.GetDepsFor | src/mtree/kerman.rs:112-116 | the stub gives an empty list for every list of names |
| Kerman.GetKernelInfos | src/mtree/kerman.rs:119-134 | it panics exactly when there is no listing or some directory is a valid kernel with an unreadable modules.dep; otherwise it returns one loaded, valid KernelInfo per directory with a `kernel` subdirectory, in listing order |
| ModDeps.KModuleTree.GetSpecified | src/mtree/moddeps.rs:27-34 | an empty module list asks for the loaded modules; any other list is asked for as given |
| ModDeps.KModuleTree.GetLoaded | src/mtree/moddeps.rs:22-24 | the loaded modules' map is what naming no module gives |
| ModDeps.KModuleTree.MergeSpecified | src/mtree/moddeps.rs:45-54 | the result is sorted, has each module and each dependency as often as the map names it, and is as long as the modules plus all their dependency lists |
| ModDeps.KModuleTree.MergeLoaded | src/mtree/moddeps.rs:39-41 | the same for the loaded modules' map |
| ModDeps.FlatKeysRemove | src/mtree/moddeps.rs:47 | any module can be merged first: the merged contents do not depend on the map's iteration order |
| ModDeps.FlatSize | src/mtree/moddeps.rs:47-50 | there is no deduplication: the merged size is the number of modules plus the total length of their lists |
| ModDeps.FlatContains | src/mtree/moddeps.rs:47-50 | every module of the map and each of its dependencies is in the merged list |
| ModDeps.FlatOnly | src/mtree/moddeps.rs:47-50 | nothing but the modules and their dependencies is in the merged list |
| ModDeps.SharedDependencyTwice | src/mtree/moddeps.rs:47-52 | a dependency shared by two modules appears twice |
| ModDeps.MergeDeterministic | src/mtree/moddeps.rs:47-52 | whatever the iteration order, the sorted merged list is the same |
| Mdb.StoragePath | src/mdb/modlist.rs:69-71 | the registry path is absolute and ends in `modules.active`, whatever the version |
| Mdb.StoragePathOfPlainVersion | src/mdb/modlist.rs:69-71 | for a plain version the registry is `/lib/modules/<v>/modules.active` |
| Mdb.ClassifyMeaning | src/mdb/modlist.rs:88-101 | a trimmed line is skipped exactly when it is a comment, empty, or does not have exactly one ':'; otherwise its entry is the text before the ':' with the marker of the text after it |
| Mdb.RegistryLineMeaning | src/mdb/modlist.rs:87-101 | the same for a raw line, after trimming |
| Mdb.EntryLineRoundTrip | src/mdb/modlist.rs:25-38 | a line written in the documented `<module>:<marker>` format, with `S` or a decimal count, reads back as that module and marker |
| Mdb.SpacedMarkerMalformed | src/mdb/modlist.rs:100 | `a.ko: 1` is malformed: the space before the marker is not trimmed and the parse fails |
| Mdb.MissingMarkerMalformed | src/mdb/modlist.rs:100 | `a.ko:` is malformed: an empty marker does not parse |
| Mdb.RegistryKeys | src/mdb/modlist.rs:86-104 | the modules of the registry are exactly those named by its entry lines |
| Mdb.LaterLineReplaces | src/mdb/modlist.rs:103 | when several lines name a module, the last one decides its marker |
| Mdb.ModList.Empty | src/mdb/modlist.rs:55-58 | the struct literal: the kernel and an empty map |
| Mdb.ModList.Load | src/mdb/modlist.rs:74-107 | a missing file gives Ok and no change; an unopenable file gives its error; otherwise it panics exactly when some line has a malformed marker, and else the map gains every entry line in turn |
| Mdb.ModList.New | src/mdb/modlist.rs:54-66 | the error of `load`, or a registry holding exactly what the file's entry lines say |
| Mdb.ModList.Add | src/mdb/modlist.rs:122-125 | the stub succeeds and changes nothing |
| Mdb.ModList.Remove | src/mdb/modlist.rs:128-131 | the stub succeeds and changes nothing |
| Pakmod.ChopField | src/pakmod/dpkgmod.rs:27-36 | a line without ':' gives ""; otherwise the trimmed text after the first ':' |
| Pakmod.ChopFieldOfFormatted | src/pakmod/dpkgmod.rs:27-36 | a line written as `<field>: <value>` gives back the value |
| Pakmod.IsPackageMeaning | src/pakmod/dpkgmod.rs:51-54 | a stanza belongs to a package exactly when `chop_field` of the text before its first newline is the package name |
| Pakmod.IsPackageFirstLine | src/pakmod/dpkgmod.rs:51-54 | only the value on a stanza's first line decides whether it belongs to a package |
| Pakmod.StanzasJoin | src/pakmod/dpkgmod.rs:40-42 | the stanzas joined with blank lines give the status text back |
| Pakmod.WithoutConcat | src/pakmod/dpkgmod.rs:64-71 | removal works stanza by stanza |
| Pakmod.WithoutRemovesAll | src/pakmod/dpkgmod.rs:64-71 | no stanza of the package is left, and every stanza left was there before |
| Pakmod.WithoutShrinks | src/pakmod/dpkgmod.rs:64-80 | something is removed exactly when some stanza belongs to the package; otherwise the list is unchanged |
| Pakmod.WithoutCount | src/pakmod/dpkgmod.rs:64-74 | the list shrinks by exactly the number of stanzas that belong to the package |
| Pakmod.WithoutKeeps | src/pakmod/dpkgmod.rs:64-74 | every stanza that does not belong to the package is still in the list |
| Pakmod.WithoutIdempotent | src/pakmod/dpkgmod.rs:60-81 | removing a package a second time changes nothing |
| Pakmod.DpkgMod.Empty | src/pakmod/dpkgmod.rs:22 | the struct literal has no stanzas |
| Pakmod.DpkgMod.New | src/pakmod/dpkgmod.rs:21-23 | the stanzas of the status file, or none when it cannot be read |
| Pakmod.DpkgMod.Load | src/pakmod/dpkgmod.rs:39-48 | the status file's stanzas are appended, and an equal copy is returned |
| Pakmod.DpkgMod.RemovePackage | src/pakmod/dpkgmod.rs:60-81 | every stanza of the package is dropped and the others keep their order; Ok exactly when one was dropped, else NotFound with nothing changed |
| Pakmod.DpkgMod.Save | src/pakmod/dpkgmod.rs:84-87 | the stub succeeds and writes nothing |

## Left out

- Filesystem access is a read-only `FileSystem` snapshot given as a parameter. Nothing is written, and paths are compared as strings, with no `.`, `..` or symbolic-link resolution.
- The listing of `/lib/modules` is a parameter of `GetKernelInfos`. Errors on single directory entries, and file names that are not UTF-8, are not modelled.
- The `debug` flag and all logging (`println!`, `log::*`) produce output only and are left out.
- `lsmod` in src/mdb/modules.rs is a stub that returns no modules. The loaded modules are therefore a parameter of `KModuleTree`.
- `get_deps_for` returns a `Vec` where `get_specified` needs a `HashMap`, so that code does not type-check as written. `KModuleTree` therefore takes the dependency-map provider `depsFor` as a parameter.
- `Vec::sort` is modelled as the functional `Order.Sort`, not as an in-place sort.
- `HashMap` iteration order is not modelled. `MergeSpecified` visits the keys in an arbitrary order, and its contract holds for every order.
- `get_dep_path` is not a separate member. Its value is the `depPath` field, which `InitialisedFrom` describes.
- `write` and `commit` in src/mdb/modlist.rs, and the process exit in `commit`, are not modelled. They create a file and exit the process.
- The `PackMod` trait in src/pakmod/rmpak.rs is not modelled. `DpkgMod` implements its two methods directly.
- `trim` and `is_whitespace` cover ASCII whitespace only. Unicode whitespace is not modelled.
- `BufRead::lines().flatten()` skips lines that are not UTF-8 and loops on a read error, for example when the registry path is a directory. The model reads the registry as text.
- The kernel-tree CLI and its glue (`main.rs`, `clidef.rs`, `actions.rs`, `logger.rs`, `sysutils.rs`) are not part of this model.
- Behaviour the code does not have, which the model does not add:
  - `merge_specified` does not deduplicate.
  - The dependency maps are not transitive closures, because `get_deps_for` is a stub.
  - A registry line with a marker that is not an `i16` panics instead of being skipped.
  - `add`, `remove` and `save` are stubs that change nothing.
  - A negative count other than -1 is accepted as written.
