# Theme resolution of a freedesktop icon lookup

This project is a Dafny model of the theme engine of the Rust crate
`freedesktop-icons`. It covers `src/theme/mod.rs` and `src/theme/paths.rs`,
and it proves what the engine promises:

- how an icon file is chosen inside one directory (png, then svg, then xmp;
  svg only when forced);
- the two size passes of a theme location:
  - the exact pass, an order-preserving filter of the index's directories;
  - the closest pass, which drops Fixed directories of another scale and
    stably sorts the rest with one of three comparators;
  - their combination, exact first;
- theme discovery: the two-pass sweep over the base directories, in which the
  first loadable index of a name is shared by every directory of that name;
- manifest access: loading `index.theme`, or synthesizing one from a walk of
  the theme directory.

The filesystem is a snapshot value (`Fs.FileSystem`):

- the existing files and directories;
- the `read_dir` listing of every readable directory;
- the sequence every `WalkDir` walk yields;
- the index files that parse, with their contents.

Modules, leaves first:

| file | module | source |
|---|---|---|
| seqs.dfy | `Seqs` | generic facts about sequences used by the proofs |
| fs.dfy | `Fs` | filesystem snapshot, paths, `Ini` and `set_to` |
| error.dfy | `ThemeErrors` | `ThemeError`, `Result` |
| icon_files.dfy | `IconFiles` | `try_build_icon_path`, `try_build_{png,svg,xmp}`, `find_map` |
| directories.dfy | `Directories` | `u16`/`i16`, directory entries, the uninterpreted size rules |
| ranking.dfy | `Ranking` | the `sort_by` comparator and a stable in-place sort |
| size_match.dfy | `SizeMatch` | `match_size`, `closest_match_size`, `try_get_icon*` |
| theme_paths.dfy | `ThemePaths` | `ThemePath::index`, `ThemePath::generate_index` |
| discovery.dfy | `Discovery` | `Theme::from_path`, `get_all_themes` |

Imperative source becomes imperative Dafny, and each method is proved against
a specification function:

- `closest_match_size` sorts a vector in place. `Ranking.SortCandidates` is a
  stable insertion sort on an `array`, proved equal to the functional
  `Ranking.Sorted`. `Ranking.StableSortUnique` shows that every stable sort
  leaves the same sequence, so the library's merge sort and this insertion
  sort agree.
- `generate_index` fills an `Ini` in two nested loops. `ThemePaths.GenerateIndex`
  is proved equal to `ThemePaths.SynthesizedIndex`.
- `get_all_themes` fills two maps and a deferred list in nested loops.
  `Discovery.GetAllThemes` is proved equal to `Discovery.Catalog`, which is
  defined per theme name:
  - take the directories of that name, in sweep order;
  - start from the first one whose own index loads and run to the end;
  - then append the earlier directories of that name, which the first pass
    deferred;
  - every entry uses that first directory's `index.theme`.

Where the source is inconsistent or surprising, the model follows the code:

- src/theme/mod.rs:244 calls `index()` with no argument and stores its `Ini`
  in the `PathBuf` field `index`. `Discovery.FromPath` uses the non-greedy
  `index`. When no fallback is given, the theme's index is
  `<path>/index.theme`, and the theme is accepted only if that file exists
  and parses.
- The test at src/theme/paths.rs:105 calls `get_all_themes(false)`. The
  function at src/theme/mod.rs:191 takes no argument. `GetAllThemes` takes the
  base directories and the filesystem snapshot.
- Deferral. The code defers every directory that `from_path` rejects,
  including one whose own `index.theme` exists but does not parse.
- The size of a synthesized entry is parsed from the text before the first
  `x` of the whole walked path string, not from the folder's name. So every
  absolute theme root yields 128 (`ThemePaths.AbsolutePathSize`).
- The synthesized list. The depth-1 walk yields the theme root itself. Its
  full walk collects the root as the empty relative path, first
  (`ThemePaths.RootListedFirst`). It also collects every nested directory a
  second time, and the later walk's `Size` wins (`ThemePaths.LastSizeIsLast`).
- The order of the base directories. The doc comment at
  src/theme/paths.rs:12 puts `$HOME/.icons` first, but the code appends it
  last (src/theme/paths.rs:24). The model takes the base directories as an
  ordered parameter, so it follows whichever order the caller passes.

## Model

| member | source | states |
|---|---|---|
| Fs.SetToSpec | src/theme/paths.rs:79-81 | `set_to` creates a missing section, overwrites the key, and leaves every other key and section unchanged |
| IconFiles.TryBuildSvg | src/theme/mod.rs:158-167 | returns Some exactly when `<dir>/<name>.svg` exists, and then that path |
| IconFiles.TryBuildPng | src/theme/mod.rs:169-178 | returns Some exactly when `<dir>/<name>.png` exists, and then that path |
| IconFiles.TryBuildXmp | src/theme/mod.rs:180-188 | returns Some exactly when `<dir>/<name>.xmp` exists, and then that path |
| IconFiles.FirstExisting | src/theme/mod.rs:149-155 | reference search: None exactly when no candidate exists; otherwise the earliest existing candidate |
| IconFiles.BuildIsFirstExisting | src/theme/mod.rs:144-156 | the `or_else` chain equals the first existing file of the probe order (svg only, or png, svg, xmp) |
| IconFiles.FormatPriority | src/theme/mod.rs:149-155 | forced: the svg if it exists, else None. Unforced: png wins, svg comes next, xmp only when neither exists, None exactly when none exists. The result is always an existing png, svg or xmp |
| IconFiles.TryBuildIconPath | src/theme/mod.rs:144-156 | any result exists, and the result is None exactly when no probed file exists (only the svg when forced; png, svg and xmp otherwise). `BuildIsFirstExisting` and `FormatPriority` state which file wins |
| IconFiles.FirstIcon | src/theme/mod.rs:62-63 | the `find_map` over directories finds only existing files; `FirstIconEarliest` states that it takes the earliest directory that yields one |
| IconFiles.FirstIconEarliest | src/theme/mod.rs:62-63 | `find_map` over directories: None exactly when no directory yields an icon; otherwise the icon of the earliest directory that yields one |
| Directories.AsI16 | src/theme/mod.rs:106 | `u16 as i16` is in the i16 range, congruent to the input mod 2^16, and the identity below 0x8000 |
| Ranking.Compare | src/theme/mod.rs:114-128 | a tie joins only distances of equal magnitude. Closest orders by magnitude alone. LargerClosest puts every positive distance ahead of every other, and SmallerClosest every negative one. `CompareIsWeakOrder` and `SortedOrder` state the resulting order |
| Ranking.CompareIsWeakOrder | src/theme/mod.rs:114-128 | each scheme comparator is asymmetric with a transitive negation, and Greater is Less with the arguments swapped |
| Ranking.PrecedesAsymmetric | src/theme/mod.rs:114-128 | two candidates never both come first in the stable order |
| Ranking.SortedPermutes | src/theme/mod.rs:114 | sorting keeps exactly the same candidates (same multiset) |
| Ranking.SortedStable | src/theme/mod.rs:114-128 | the sorted candidates are in comparator order, and ties keep index order |
| Ranking.StableSortUnique | src/theme/mod.rs:114 | two stably sorted arrangements of the same candidates are equal, so any stable `sort_by` gives this result |
| Ranking.SortedOrder | src/theme/mod.rs:114-128 | Closest sorts by non-decreasing absolute distance. LargerClosest puts positive distances first, SmallerClosest puts negative ones first, and each group sorts by absolute distance. Equal keys keep index order |
| Ranking.InsertInPlace | src/theme/mod.rs:114 | one insertion pass on the array leaves the prefix equal to the functional insertion and the rest unchanged |
| Ranking.SortCandidates | src/theme/mod.rs:114-128 | the in-place sort leaves the array equal to the stable sort of its old contents |
| SizeMatch.MatchSize | src/theme/mod.rs:66-77 | the exact pass yields at most one path per directory; `MatchSizeAppend`, `MatchSizeSingle` and `MatchSizeMembers` pin it down as an order-preserving filter |
| SizeMatch.TryGetIconExactSize | src/theme/mod.rs:54-64 | any icon the exact pass finds exists; `ExactSizeEarliest` states that it comes from the earliest matching directory holding one |
| SizeMatch.MatchSizeAppend | src/theme/mod.rs:66-77 | the exact-pass filter maps concatenation of index segments to concatenation of their results |
| SizeMatch.MatchSizeSingle | src/theme/mod.rs:74-76 | a single directory is kept, joined under the root, exactly when its exact-match rule accepts the size and scale |
| SizeMatch.MatchSizeMembers | src/theme/mod.rs:74-76 | a path is yielded exactly when it is some matching directory joined under the theme root |
| SizeMatch.ExactSizeEarliest | src/theme/mod.rs:54-64 | the exact pass returns the icon of the earliest matching directory that holds one, and None exactly when no matching directory does |
| SizeMatch.ExactSizeStep | src/theme/mod.rs:62-63 | the first directory decides when it matches and holds the icon; otherwise the rest of the index does |
| SizeMatch.Excluded | src/theme/mod.rs:105-109 | only Fixed directories are dropped, and for a requested scale below 0x8000 a Fixed directory is dropped exactly when its scale differs |
| SizeMatch.TryGetIconClosestSize | src/theme/mod.rs:79-91 | any icon the closest pass finds exists; `ClosestSound` and `ClosestNearest` state which ranked directory it comes from |
| SizeMatch.CandidatesFrom | src/theme/mod.rs:102-112 | the kept candidates are exactly the directories that are not Fixed with another scale, each with its own distance, in index order |
| SizeMatch.DirPaths | src/theme/mod.rs:132-136 | the ranked directories, joined under the root, one for one and in order |
| SizeMatch.RankedPermutes | src/theme/mod.rs:102-128 | the ranked list holds exactly the candidates and is stably sorted |
| SizeMatch.ClosestPathsProperties | src/theme/mod.rs:93-137 | the closest pass never yields a Fixed directory of another scale. Every other directory appears exactly once, with its own distance and in stable comparator order. The output is no longer than the index |
| SizeMatch.ClosestMatchSize | src/theme/mod.rs:93-137 | collecting, sorting the vector in place and mapping gives the specified ranked paths |
| SizeMatch.TryGetIcon | src/theme/mod.rs:32-52 | the exact result when it is Some; the closest pass only when the exact pass yields None |
| SizeMatch.ClosestSound | src/theme/mod.rs:79-91 | the closest pass yields None exactly when no kept directory holds the icon; any result was built in one of the index's directories |
| SizeMatch.ClosestNearest | src/theme/mod.rs:79-128 | the closest pass returns the icon of a ranked directory, and no directory holding the icon is ranked strictly ahead of it |
| SizeMatch.DirIconInProbeOrder | src/theme/mod.rs:144-156 | an icon built in a directory is an existing file of that directory's probe order |
| SizeMatch.TryGetIconSound | src/theme/mod.rs:32-52 | any result is an existing file of some directory's probe order. The result is None exactly when no matching directory and no kept directory holds the icon |
| ThemePaths.Index | src/theme/paths.rs:32-43 | non-greedy with no index file gives ThemeIndexNotFound carrying the root. Greedy with no index file gives the synthesized manifest and never errors. With the file present, the result is its parse, or IniError when it does not parse |
| ThemePaths.GreedyIrrelevantWhenPresent | src/theme/paths.rs:35-42 | when `index.theme` exists, the greedy flag changes nothing |
| ThemePaths.ShallowWalk | src/theme/paths.rs:48-53 | the depth-1 walk starts with the theme root when it exists, and is empty otherwise |
| ThemePaths.StripPrefixJoin | src/theme/paths.rs:65 | prefix stripping undoes joining under the root, and joining recovers every stripped path |
| ThemePaths.CollectMembers | src/theme/paths.rs:58-68 | a relative path is collected exactly when some directory of the walk strips to it |
| ThemePaths.ParseUsize | src/theme/paths.rs:76-77 | a parsed size fits a 64-bit `usize`; the empty string and a lone `+` fail |
| ThemePaths.NatToString | src/theme/paths.rs:80 | `to_string` is a non-empty digit string with no leading zero |
| ThemePaths.ParseUsizeNatToString | src/theme/paths.rs:70-80 | parsing a printed `usize` gives it back |
| ThemePaths.BeforeFirstX | src/theme/paths.rs:73-74 | the first `split('x')` piece is the longest prefix without `x`: the whole text, or the text up to the first `x` |
| ThemePaths.SizeNumber | src/theme/paths.rs:70-77 | the size number always fits a `usize` |
| ThemePaths.SizeNumberOfSizedPath | src/theme/paths.rs:70-77 | a path that starts with `<n>x` gives size n |
| ThemePaths.AbsolutePathSize | src/theme/paths.rs:70-77 | an absolute walked path always gives the default 128 |
| ThemePaths.SplitJoinComma | src/theme/paths.rs:86-90 | splitting the comma-joined directory list gives the list back when no name contains a comma |
| ThemePaths.GenerateIndex | src/theme/paths.rs:45-93 | the two nested loops build exactly the specified synthesized manifest |
| ThemePaths.LastSizeDefined | src/theme/paths.rs:79-83 | a `Size` is recorded exactly for the collected paths |
| ThemePaths.LastSizeIsLast | src/theme/paths.rs:79-81 | a path collected by several walk entries gets the size of the last one |
| ThemePaths.SetSizesAt | src/theme/paths.rs:79-81 | writing `Size` for a batch of paths gives each of them a one-key section with that size, and leaves the other sections alone |
| ThemePaths.SizeSectionsAt | src/theme/paths.rs:57-81 | each size section holds the single key `Size`, set to the last recorded size of that path |
| ThemePaths.SynthesizedIndexSpec | src/theme/paths.rs:45-93 | the sections are the collected paths plus `Icon Theme`. `Directories` is the comma-join of all collected paths, in collection order with repeats. Every collected path has its last `Size` |
| ThemePaths.RootListedFirst | src/theme/paths.rs:48-68 | for a theme root whose walk starts with itself, the first listed directory is the empty relative path |
| Discovery.FromPath | src/theme/mod.rs:233-252 | None when the path is not a directory, or when it has no `index.theme` and no fallback. With a fallback, a directory gets the fallback even if it has its own index. Without one, it is accepted exactly when its own index loads, and it then uses `<path>/index.theme` |
| Discovery.FirstOwnIndex | src/theme/mod.rs:207-210 | the position of the first directory whose own index loads; none of the earlier ones loads |
| Discovery.FirstPassRevisitOk | src/theme/mod.rs:214-216 | the deferred entries are directories whose own index does not load |
| Discovery.FirstPassSpec | src/theme/mod.rs:196-218 | after the first pass, per name: an index is recorded exactly when a directory of that name loads its own. That index comes from the first such directory and is never overwritten. The stored themes are the directories from that one on. The deferred directories of that name are the earlier ones, or all of them when none loads |
| Discovery.SecondPassSpec | src/theme/mod.rs:220-227 | the revisit appends the deferred directories of a recorded name, with the recorded index, and drops those of unrecorded names |
| Discovery.PassesMeetCatalog | src/theme/mod.rs:191-230 | the two passes produce exactly the catalog |
| Discovery.Visit | src/theme/mod.rs:206-216 | one first-pass entry updates the table, the themes and the deferred list as one step of the first pass |
| Discovery.VisitBase | src/theme/mod.rs:205-217 | the loop over one readable base directory's listing extends the first pass by exactly that directory's entries |
| Discovery.Revisit | src/theme/mod.rs:220-227 | the loop over the deferred entries computes exactly the specified second pass |
| Discovery.GetAllThemes | src/theme/mod.rs:191-230 | the nested loops and the revisit loop return exactly the catalog |
| Discovery.CatalogDomain | src/theme/mod.rs:205-227 | a name is catalogued exactly when one of its directories has an own index that loads |
| Discovery.CatalogShape | src/theme/mod.rs:205-227 | each name's list is non-empty and holds only directories: every directory of that name exactly once. All use the index of the first, which is the earliest directory of that name whose own index loads. Later directories follow in sweep order, then the deferred earlier ones |
| Discovery.UnreadableBaseSkipped | src/theme/mod.rs:196-202 | an unreadable base directory contributes nothing |

## Left out

- `icon_theme_base_paths`, `BASE_PATHS` and `THEMES`: they read the
  environment, the home directory and the XDG directories, and they
  initialise once, lazily. The base directories are a parameter instead.
- `read_ini_theme`, the `ini` crate's parser and `get_all_directories`: file
  reading and a foreign parser. A theme location's index arrives already
  decoded, as its sequence of directory entries. Parse success of an index
  file means the file is a key of the snapshot's manifests.
- `DirectoryType::match_size` and `directory_size_distance`: their source is
  not part of this model. They are uninterpreted functions.
- `WalkDir` and `read_dir`: their results are given sequences in the snapshot.
  Entries whose read fails are already dropped.
- Path semantics: `join` is string concatenation with `/`. Rust's
  replacement of the base by an absolute component is not modelled. Neither
  is component-wise normalisation in `strip_prefix` (trailing separators,
  `.` components).
- `to_str` failure on non-UTF-8 paths, and the lossy conversion of entry
  names: paths and names are plain strings.
- `tracing::error!` logging of an unreadable base directory.
- Ranking.CompareAbs: distances are unbounded integers. The overflow of
  `i16::abs` on -32768 is not modelled.
- ThemePaths.ParseUsize: assumes a 64-bit `usize`.
- ThemeErrors.ThemeError: the payloads of `IoError` and `IniError` are not
  modelled.
- Ranking.SortCandidates: the library's merge sort is replaced by a stable
  insertion sort. `Ranking.StableSortUnique` shows that both leave the same
  result.
- The lookup across theme locations and inherited themes in `src/lib.rs` is
  not part of this model. Neither is examples/get_icon.rs, a demo program.
- The tests that need real or fake icon directories on disk.
