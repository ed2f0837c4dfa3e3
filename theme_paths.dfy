/** A theme directory's manifest: `ThemePath::index` (load `index.theme`,
    or synthesize one when asked to be greedy) and
    `ThemePath::generate_index` (src/theme/paths.rs). */
module ThemePaths {
  import opened Fs
  import opened ThemeErrors

  /** `<root>/index.theme` */
  function IndexFile(root: Path): Path
  {
    Join(root, "index.theme")
  }

  /** `ThemePath::index(greedy)`. A missing index file is an error carrying
      the theme root unless `greedy`, in which case a manifest is
      synthesized; an existing one yields its parse or an INI error. */
  function Index(fs: FileSystem, root: Path, greedy: bool): (r: Result<Ini>)
    ensures (r.Err? && r.error.ThemeIndexNotFound?) <==> !greedy && !Exists(fs, IndexFile(root))
    ensures r.Err? && r.error.ThemeIndexNotFound? ==> r.error.path == root
    ensures greedy ==> r.Ok? || r.error == IniError
    ensures r.Err? ==> r.error != IoError
    ensures Exists(fs, IndexFile(root)) ==>
      (r.Ok? <==> IndexFile(root) in fs.manifests) && (r.Ok? ==> r.value == fs.manifests[IndexFile(root)])
    ensures greedy && !Exists(fs, IndexFile(root)) ==> r == Ok(SynthesizedIndex(fs, root))
  {
    var index := IndexFile(root);
    if !Exists(fs, index) then
      if greedy then Ok(SynthesizedIndex(fs, root)) else Err(ThemeIndexNotFound(root))
    else if index in fs.manifests then Ok(fs.manifests[index])
    else Err(IniError)
  }

  /** When the index file exists, the greedy flag changes nothing. */
  lemma GreedyIrrelevantWhenPresent(fs: FileSystem, root: Path)
    requires Exists(fs, IndexFile(root))
    ensures Index(fs, root, true) == Index(fs, root, false)
    ensures Index(fs, root, true).Ok? || Index(fs, root, true).error == IniError
  {
  }

  // ---------------------------------------------------------------------
  // Walking the theme directory

  /** `WalkDir::new(root).max_depth(1)` with errors dropped: the root itself
      first (when it exists), then the entries of its listing. */
  function ShallowWalk(fs: FileSystem, root: Path): (r: seq<Path>)
    ensures Exists(fs, root) ==> |r| > 0 && r[0] == root
    ensures !Exists(fs, root) ==> r == []
  {
    if !Exists(fs, root) then []
    else [root] + Children(root, if root in fs.listings then fs.listings[root] else [])
  }

  function Children(root: Path, names: seq<string>): (r: seq<Path>)
    ensures |r| == |names|
    ensures forall i :: 0 <= i < |names| ==> r[i] == Join(root, names[i])
  {
    if names == [] then [] else [Join(root, names[0])] + Children(root, names[1..])
  }

  /** `WalkDir::new(p)` with errors dropped. */
  function FullWalk(fs: FileSystem, p: Path): seq<Path>
  {
    if p in fs.walks then fs.walks[p] else []
  }

  /** `Path::strip_prefix(root)`: the root itself becomes the empty path,
      a path under `root/` loses that prefix, anything else fails. */
  function StripPrefix(p: Path, root: Path): Option<string>
  {
    if p == root then Some("")
    else if |root| + 1 <= |p| && p[..|root| + 1] == root + "/" then Some(p[|root| + 1..])
    else None
  }

  /** Stripping undoes joining, and a stripped path is recovered by joining. */
  lemma StripPrefixJoin(p: Path, root: Path, rel: string)
    ensures StripPrefix(Join(root, rel), root) == Some(rel)
    ensures StripPrefix(p, root) == Some(rel) ==> (p == root && rel == "") || p == Join(root, rel)
  {
    var q := Join(root, rel);
    assert q[..|root| + 1] == root + "/";
    assert q[|root| + 1..] == rel;
    if StripPrefix(p, root) == Some(rel) && p != root {
      assert p == p[..|root| + 1] + p[|root| + 1..];
    }
  }

  /** The directories of a walk, made relative to the theme root; entries
      outside the root are skipped. */
  function Collect(fs: FileSystem, root: Path, walk: seq<Path>): (r: seq<string>)
    ensures |r| <= |walk|
  {
    if walk == [] then []
    else
      var rel := StripPrefix(walk[0], root);
      (if IsDir(fs, walk[0]) && rel.Some? then [rel.value] else []) + Collect(fs, root, walk[1..])
  }

  /** A relative path is collected exactly when some directory of the walk
      strips to it. */
  lemma {:induction false} CollectMembers(fs: FileSystem, root: Path, walk: seq<Path>, rel: string)
    ensures rel in Collect(fs, root, walk) <==>
      exists i :: 0 <= i < |walk| && IsDir(fs, walk[i]) && StripPrefix(walk[i], root) == Some(rel)
    decreases |walk|
  {
    if walk != [] {
      CollectMembers(fs, root, walk[1..], rel);
      if rel in Collect(fs, root, walk[1..]) {
        var i :| 0 <= i < |walk[1..]| && IsDir(fs, walk[1..][i]) && StripPrefix(walk[1..][i], root) == Some(rel);
        assert walk[i + 1] == walk[1..][i];
      }
      if exists i :: 0 <= i < |walk| && IsDir(fs, walk[i]) && StripPrefix(walk[i], root) == Some(rel) {
        var i :| 0 <= i < |walk| && IsDir(fs, walk[i]) && StripPrefix(walk[i], root) == Some(rel);
        if i > 0 {
          assert walk[1..][i - 1] == walk[i];
        }
      }
    }
  }

  /** The relative directories gathered from one entry of the shallow walk. */
  function CollectedPaths(fs: FileSystem, root: Path, size: Path): seq<string>
  {
    Collect(fs, root, FullWalk(fs, size))
  }

  // ---------------------------------------------------------------------
  // Numbers

  /** The largest `usize` plus one (a 64-bit target). */
  const UsizeLimit: nat := 0x1_0000_0000_0000_0000

  predicate IsDigit(c: char)
  {
    '0' <= c <= '9'
  }

  predicate AllDigits(s: string)
  {
    forall i :: 0 <= i < |s| ==> IsDigit(s[i])
  }

  function DigitChar(d: nat): char
    requires d < 10
  {
    ('0' as int + d) as char
  }

  /** The value of a string of decimal digits. */
  function DigitsValue(s: string): nat
    requires AllDigits(s)
  {
    if s == [] then 0 else DigitsValue(s[..|s| - 1]) * 10 + (s[|s| - 1] as int - '0' as int)
  }

  /** `usize::from_str`: an optional leading '+', then at least one
      decimal digit and nothing else, with a value that fits. */
  function ParseUsize(s: string): (r: Option<nat>)
    ensures r.Some? ==> r.value < UsizeLimit
    ensures s == [] || s == "+" ==> r.None?
  {
    if s == [] then None
    else
      var digits := if s[0] == '+' then s[1..] else s;
      if digits == [] || !AllDigits(digits) then None
      else if DigitsValue(digits) < UsizeLimit then Some(DigitsValue(digits))
      else None
  }

  /** `usize::to_string`: decimal, no sign, no leading zeros. */
  function NatToString(n: nat): (r: string)
    ensures |r| > 0 && AllDigits(r)
    ensures r[0] != '0' || n == 0
  {
    if n < 10 then [DigitChar(n)] else NatToString(n / 10) + [DigitChar(n % 10)]
  }

  lemma {:induction false} DigitsValueOfNatToString(n: nat)
    ensures DigitsValue(NatToString(n)) == n
  {
    var s := NatToString(n);
    if n >= 10 {
      DigitsValueOfNatToString(n / 10);
      assert s[..|s| - 1] == NatToString(n / 10);
    }
  }

  /** Printing a `usize` and parsing it back gives the number. */
  lemma ParseUsizeNatToString(n: nat)
    requires n < UsizeLimit
    ensures ParseUsize(NatToString(n)) == Some(n)
  {
    DigitsValueOfNatToString(n);
  }

  /** The text before the first 'x' (all of it when there is none): the
      first item of `split('x')`. */
  function BeforeFirstX(s: string): (r: string)
    ensures |r| <= |s| && r == s[..|r|]
    ensures 'x' !in r
    ensures |r| < |s| ==> s[|r|] == 'x'
  {
    if s == [] || s[0] == 'x' then [] else [s[0]] + BeforeFirstX(s[1..])
  }

  lemma {:induction false} BeforeFirstXOf(a: string, rest: string)
    requires 'x' !in a
    ensures BeforeFirstX(a + "x" + rest) == a
  {
    if a != [] {
      assert (a + "x" + rest)[1..] == a[1..] + "x" + rest;
      BeforeFirstXOf(a[1..], rest);
    }
  }

  /** The size a walked path stands for: the number before the first 'x'
      of the whole path string, 128 when that is not a number. */
  function SizeNumber(size: Path): (r: nat)
    ensures r < UsizeLimit
  {
    match ParseUsize(BeforeFirstX(size))
    case Some(n) => n
    case None => 128
  }

  /** A path that starts with the size, such as `48x48/apps`, gives that size. */
  lemma SizeNumberOfSizedPath(n: nat, rest: string)
    requires n < UsizeLimit
    ensures SizeNumber(NatToString(n) + "x" + rest) == n
  {
    var s := NatToString(n);
    assert forall i :: 0 <= i < |s| ==> s[i] != 'x';
    BeforeFirstXOf(s, rest);
    ParseUsizeNatToString(n);
  }

  /** Since the whole path is parsed, an absolute walked path always gives
      the default size, whatever its last component says. */
  lemma AbsolutePathSize(size: Path)
    requires |size| > 0 && size[0] == '/'
    ensures SizeNumber(size) == 128
  {
    var b := BeforeFirstX(size);
    assert b == [size[0]] + BeforeFirstX(size[1..]);
    assert !IsDigit(b[0]);
  }

  // ---------------------------------------------------------------------
  // Joining and splitting the directory list

  /** `join(",")` */
  function JoinComma(ss: seq<string>): string
  {
    if ss == [] then ""
    else if |ss| == 1 then ss[0]
    else ss[0] + "," + JoinComma(ss[1..])
  }

  /** `split(',')`: always at least one piece. */
  function SplitComma(s: string): (r: seq<string>)
    ensures |r| > 0
  {
    if s == [] then [""]
    else if s[0] == ',' then [""] + SplitComma(s[1..])
    else
      var rest := SplitComma(s[1..]);
      [[s[0]] + rest[0]] + rest[1..]
  }

  lemma {:induction false} SplitCommaFree(a: string, tail: Option<string>)
    requires ',' !in a
    ensures tail.None? ==> SplitComma(a) == [a]
    ensures tail.Some? ==> SplitComma(a + "," + tail.value) == [a] + SplitComma(tail.value)
  {
    if a != [] {
      SplitCommaFree(a[1..], tail);
      assert [a[0]] + a[1..] == a;
      if tail.Some? {
        var s := a + "," + tail.value;
        assert s[0] == a[0] && s[1..] == a[1..] + "," + tail.value;
      }
    } else if tail.Some? {
      var s := a + "," + tail.value;
      assert s[0] == ',' && s[1..] == tail.value;
    }
  }

  /** The directory list can be read back: splitting a join of comma-free
      names gives the names. */
  lemma {:induction false} SplitJoinComma(ss: seq<string>)
    requires ss != []
    requires forall i :: 0 <= i < |ss| ==> ',' !in ss[i]
    ensures SplitComma(JoinComma(ss)) == ss
  {
    if |ss| == 1 {
      SplitCommaFree(ss[0], None);
      assert ss == [ss[0]];
    } else {
      var tail := ss[1..];
      forall i | 0 <= i < |tail| ensures ',' !in tail[i] {
        assert tail[i] == ss[i + 1];
      }
      SplitJoinComma(tail);
      assert JoinComma(ss) == ss[0] + "," + JoinComma(tail);
      SplitCommaFree(ss[0], Some(JoinComma(tail)));
      assert ss == [ss[0]] + tail;
    }
  }

  // ---------------------------------------------------------------------
  // The synthesized manifest

  /** `set_to(Some(p), "Size", size)` for each of `paths` in order. */
  function SetSizes(ini: Ini, paths: seq<string>, size: string): Ini
  {
    if paths == [] then ini
    else SetTo(SetSizes(ini, paths[..|paths| - 1], size), paths[|paths| - 1], "Size", size)
  }

  /** The size sections written for the first walk entries `sizes`. */
  function SizeSections(fs: FileSystem, root: Path, sizes: seq<Path>): Ini
  {
    if sizes == [] then map[]
    else
      var last := sizes[|sizes| - 1];
      SetSizes(SizeSections(fs, root, sizes[..|sizes| - 1]), CollectedPaths(fs, root, last), NatToString(SizeNumber(last)))
  }

  /** The relative paths gathered from the walk entries `sizes`, in order,
      repetitions kept. */
  function AllCollected(fs: FileSystem, root: Path, sizes: seq<Path>): seq<string>
  {
    if sizes == [] then []
    else AllCollected(fs, root, sizes[..|sizes| - 1]) + CollectedPaths(fs, root, sizes[|sizes| - 1])
  }

  /** The manifest `generate_index` builds. */
  function SynthesizedIndex(fs: FileSystem, root: Path): Ini
  {
    var sizes := ShallowWalk(fs, root);
    SetTo(SizeSections(fs, root, sizes), "Icon Theme", "Directories", JoinComma(AllCollected(fs, root, sizes)))
  }

  lemma SizeSectionsSnoc(fs: FileSystem, root: Path, sizes: seq<Path>, i: nat)
    requires i < |sizes|
    ensures SizeSections(fs, root, sizes[..i + 1])
         == SetSizes(SizeSections(fs, root, sizes[..i]), CollectedPaths(fs, root, sizes[i]), NatToString(SizeNumber(sizes[i])))
    ensures AllCollected(fs, root, sizes[..i + 1]) == AllCollected(fs, root, sizes[..i]) + CollectedPaths(fs, root, sizes[i])
  {
    assert sizes[..i + 1][..i] == sizes[..i];
  }

  lemma SetSizesSnoc(ini: Ini, paths: seq<string>, j: nat, size: string)
    requires j < |paths|
    ensures SetSizes(ini, paths[..j + 1], size) == SetTo(SetSizes(ini, paths[..j], size), paths[j], "Size", size)
  {
    assert paths[..j + 1][..j] == paths[..j];
  }

  /** `ThemePath::generate_index` */
  method GenerateIndex(fs: FileSystem, root: Path) returns (index: Ini)
    ensures index == SynthesizedIndex(fs, root)
  {
    index := map[];
    var sizesDirs := ShallowWalk(fs, root);
    var appDirs: seq<string> := [];
    for i := 0 to |sizesDirs|
      invariant index == SizeSections(fs, root, sizesDirs[..i])
      invariant appDirs == AllCollected(fs, root, sizesDirs[..i])
    {
      var size := sizesDirs[i];
      var paths := CollectedPaths(fs, root, size);
      var sizeNum := SizeNumber(size);
      ghost var before := SizeSections(fs, root, sizesDirs[..i]);
      for j := 0 to |paths|
        invariant index == SetSizes(before, paths[..j], NatToString(sizeNum))
      {
        SetSizesSnoc(before, paths, j, NatToString(sizeNum));
        index := SetTo(index, paths[j], "Size", NatToString(sizeNum));
      }
      assert paths[..|paths|] == paths;
      SizeSectionsSnoc(fs, root, sizesDirs, i);
      appDirs := appDirs + paths;
    }
    assert sizesDirs[..|sizesDirs|] == sizesDirs;
    index := SetTo(index, "Icon Theme", "Directories", JoinComma(appDirs));
  }

  /** Reference for the `Size` value of a collected path: the size of the
      last walk entry that collected it. */
  function LastSize(fs: FileSystem, root: Path, sizes: seq<Path>, p: string): Option<nat>
  {
    if sizes == [] then None
    else if p in CollectedPaths(fs, root, sizes[|sizes| - 1]) then Some(SizeNumber(sizes[|sizes| - 1]))
    else LastSize(fs, root, sizes[..|sizes| - 1], p)
  }

  /** A size is recorded exactly for the collected paths. */
  lemma {:induction false} LastSizeDefined(fs: FileSystem, root: Path, sizes: seq<Path>, p: string)
    ensures LastSize(fs, root, sizes, p).Some? <==> p in AllCollected(fs, root, sizes)
  {
    if sizes != [] {
      LastSizeDefined(fs, root, sizes[..|sizes| - 1], p);
    }
  }

  /** The later of two walk entries that collect a path wins: the recorded
      size is that of the last entry collecting it. */
  lemma {:induction false} LastSizeIsLast(fs: FileSystem, root: Path, sizes: seq<Path>, p: string, k: nat)
    requires k < |sizes| && p in CollectedPaths(fs, root, sizes[k])
    requires forall j :: k < j < |sizes| ==> p !in CollectedPaths(fs, root, sizes[j])
    ensures LastSize(fs, root, sizes, p) == Some(SizeNumber(sizes[k]))
  {
    if k < |sizes| - 1 {
      var init := sizes[..|sizes| - 1];
      assert p !in CollectedPaths(fs, root, sizes[|sizes| - 1]);
      assert init[k] == sizes[k];
      forall j | k < j < |init| ensures p !in CollectedPaths(fs, root, init[j]) {
        assert init[j] == sizes[j];
      }
      LastSizeIsLast(fs, root, init, p, k);
    }
  }

  /** What writing `Size` for each of `paths` does to one section. */
  lemma {:induction false} SetSizesAt(ini: Ini, paths: seq<string>, size: string, s: string)
    requires s in ini ==> ini[s].Keys == {"Size"}
    ensures var r := SetSizes(ini, paths, size);
      && (s in r <==> s in ini || s in paths)
      && (s in paths ==> r[s].Keys == {"Size"} && r[s]["Size"] == size)
      && (s in ini && s !in paths ==> r[s] == ini[s])
  {
    if paths != [] {
      var init := paths[..|paths| - 1];
      var last := paths[|paths| - 1];
      SetSizesAt(ini, init, size, s);
      SetToSpec(SetSizes(ini, init, size), last, "Size", size);
      assert s in paths <==> s in init || s == last;
    }
  }

  /** Every section of the size part holds one key, `Size`, whose value is
      the size of the last walk entry that collected that path. */
  lemma {:induction false} SizeSectionsAt(fs: FileSystem, root: Path, sizes: seq<Path>, p: string)
    ensures var r := SizeSections(fs, root, sizes);
      && (p in r <==> LastSize(fs, root, sizes, p).Some?)
      && (p in r ==> r[p].Keys == {"Size"} && r[p]["Size"] == NatToString(LastSize(fs, root, sizes, p).value))
  {
    if sizes != [] {
      var init := sizes[..|sizes| - 1];
      SizeSectionsAt(fs, root, init, p);
      SetSizesAt(SizeSections(fs, root, init), CollectedPaths(fs, root, sizes[|sizes| - 1]),
                 NatToString(SizeNumber(sizes[|sizes| - 1])), p);
    }
  }

  /** The synthesized manifest: one section per collected path, whose
      `Size` is that of the last walk entry collecting it, plus the
      `Icon Theme` section listing every collected path, comma-joined, in
      collection order with repetitions. */
  lemma SynthesizedIndexSpec(fs: FileSystem, root: Path)
    ensures var sizes := ShallowWalk(fs, root);
      var r := SynthesizedIndex(fs, root);
      var all := AllCollected(fs, root, sizes);
      && (forall p :: p in r <==> p in all || p == "Icon Theme")
      && r["Icon Theme"]["Directories"] == JoinComma(all)
      && forall p :: p in all ==>
           LastSize(fs, root, sizes, p).Some? && "Size" in r[p]
           && r[p]["Size"] == NatToString(LastSize(fs, root, sizes, p).value)
  {
    var sizes := ShallowWalk(fs, root);
    var all := AllCollected(fs, root, sizes);
    var r := SynthesizedIndex(fs, root);
    SetToSpec(SizeSections(fs, root, sizes), "Icon Theme", "Directories", JoinComma(all));
    forall p ensures (p in r <==> p in all || p == "Icon Theme")
      && (p in all ==> LastSize(fs, root, sizes, p).Some? && "Size" in r[p]
                       && r[p]["Size"] == NatToString(LastSize(fs, root, sizes, p).value))
    {
      LastSizeDefined(fs, root, sizes, p);
      SizeSectionsAt(fs, root, sizes, p);
    }
  }

  /** The depth-1 walk yields the theme root first, and the root's own walk
      starts with the root, so the empty relative path is always the first
      directory listed. */
  lemma RootListedFirst(fs: FileSystem, root: Path)
    requires IsDir(fs, root)
    requires root in fs.walks && |fs.walks[root]| > 0 && fs.walks[root][0] == root
    ensures var all := AllCollected(fs, root, ShallowWalk(fs, root));
      |all| > 0 && all[0] == ""
  {
    var sizes := ShallowWalk(fs, root);
    assert AllCollected(fs, root, sizes[..1]) == CollectedPaths(fs, root, root);
    AllCollectedPrefix(fs, root, sizes, 1);
  }

  lemma {:induction false} AllCollectedPrefix(fs: FileSystem, root: Path, sizes: seq<Path>, n: nat)
    requires n <= |sizes|
    ensures AllCollected(fs, root, sizes[..n]) <= AllCollected(fs, root, sizes)
    decreases |sizes|
  {
    if n < |sizes| {
      AllCollectedPrefix(fs, root, sizes[..|sizes| - 1], n);
      assert sizes[..|sizes| - 1][..n] == sizes[..n];
    } else {
      assert sizes[..n] == sizes;
    }
  }
}
