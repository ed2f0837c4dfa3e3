/** Looking an icon up in one theme location: the exact-size pass, the
    closest-size pass and their combination. The decoded index of the
    location is given as its sequence of directory entries. */
module SizeMatch {
  import opened Fs
  import opened Directories
  import opened Ranking
  import opened IconFiles
  import opened Seqs

  /** The icon `name` built in directory `d` of the theme rooted at `root`. */
  function DirIcon(fs: FileSystem, root: Path, d: Directory, name: string, forceSvg: bool): Option<Path>
  {
    TryBuildIconPath(fs, name, Join(root, d.name), forceSvg)
  }

  /** `match_size`: the directories whose exact-match rule accepts the
      requested size and scale, in index order, joined under the root. */
  function MatchSize(root: Path, dirs: seq<Directory>, rules: SizeRules, size: U16, scale: U16): (r: seq<Path>)
    ensures |r| <= |dirs|
    decreases |dirs|
  {
    if dirs == [] then []
    else
      (if rules.matches(dirs[0], size, scale) then [Join(root, dirs[0].name)] else [])
      + MatchSize(root, dirs[1..], rules, size, scale)
  }

  /** `MatchSize` maps concatenation to concatenation; with its value on a
      single directory (`MatchSizeSingle`) this determines it as an
      order-preserving filter. */
  lemma {:induction false} MatchSizeAppend(root: Path, a: seq<Directory>, b: seq<Directory>, rules: SizeRules, size: U16, scale: U16)
    ensures MatchSize(root, a + b, rules, size, scale) == MatchSize(root, a, rules, size, scale) + MatchSize(root, b, rules, size, scale)
    decreases |a|
  {
    if a == [] {
      assert a + b == b;
    } else {
      assert (a + b)[1..] == a[1..] + b;
      MatchSizeAppend(root, a[1..], b, rules, size, scale);
      var head := if rules.matches(a[0], size, scale) then [Join(root, a[0].name)] else [];
      Associative(head, MatchSize(root, a[1..], rules, size, scale), MatchSize(root, b, rules, size, scale));
    }
  }

  /** On a single directory the exact pass keeps it, joined under the root,
      exactly when it matches. */
  lemma MatchSizeSingle(root: Path, d: Directory, rules: SizeRules, size: U16, scale: U16)
    ensures MatchSize(root, [d], rules, size, scale) == if rules.matches(d, size, scale) then [Join(root, d.name)] else []
  {
    assert [d][1..] == [];
  }

  /** A path comes out of `MatchSize` exactly when some matching directory
      joins to it. */
  lemma {:induction false} MatchSizeMembers(root: Path, dirs: seq<Directory>, rules: SizeRules, size: U16, scale: U16, p: Path)
    ensures p in MatchSize(root, dirs, rules, size, scale)
        <==> exists k :: 0 <= k < |dirs| && rules.matches(dirs[k], size, scale) && p == Join(root, dirs[k].name)
    decreases |dirs|
  {
    if dirs != [] {
      MatchSizeMembers(root, dirs[1..], rules, size, scale, p);
      if exists k :: 1 <= k < |dirs| && rules.matches(dirs[k], size, scale) && p == Join(root, dirs[k].name) {
        var k :| 1 <= k < |dirs| && rules.matches(dirs[k], size, scale) && p == Join(root, dirs[k].name);
        assert dirs[1..][k - 1] == dirs[k];
      }
      if exists k :: 0 <= k < |dirs[1..]| && rules.matches(dirs[1..][k], size, scale) && p == Join(root, dirs[1..][k].name) {
        var k :| 0 <= k < |dirs[1..]| && rules.matches(dirs[1..][k], size, scale) && p == Join(root, dirs[1..][k].name);
        assert dirs[1..][k] == dirs[k + 1];
      }
    }
  }

  /** `try_get_icon_exact_size`: the first icon built from the directories
      of the exact pass. */
  function TryGetIconExactSize(fs: FileSystem, root: Path, dirs: seq<Directory>, rules: SizeRules,
                               name: string, size: U16, scale: U16, forceSvg: bool): (r: Option<Path>)
    ensures r.Some? ==> Exists(fs, r.value)
  {
    FirstIcon(fs, name, MatchSize(root, dirs, rules, size, scale), forceSvg)
  }

  /** The exact pass returns the icon of the earliest matching directory in
      which one can be built, and nothing when no matching directory holds
      the icon. */
  lemma {:induction false} ExactSizeEarliest(fs: FileSystem, root: Path, dirs: seq<Directory>, rules: SizeRules,
                                             name: string, size: U16, scale: U16, forceSvg: bool)
    ensures var r := TryGetIconExactSize(fs, root, dirs, rules, name, size, scale, forceSvg);
      && (r.None? <==> forall k :: 0 <= k < |dirs| && rules.matches(dirs[k], size, scale) ==> DirIcon(fs, root, dirs[k], name, forceSvg).None?)
      && (forall k :: 0 <= k < |dirs| && rules.matches(dirs[k], size, scale) && DirIcon(fs, root, dirs[k], name, forceSvg).Some?
                      && (forall j :: 0 <= j < k && rules.matches(dirs[j], size, scale) ==> DirIcon(fs, root, dirs[j], name, forceSvg).None?)
                      ==> r == DirIcon(fs, root, dirs[k], name, forceSvg))
      && (r.Some? ==> exists k :: 0 <= k < |dirs| && rules.matches(dirs[k], size, scale) && r == DirIcon(fs, root, dirs[k], name, forceSvg))
    decreases |dirs|
  {
    if dirs != [] {
      var d, rest := dirs[0], dirs[1..];
      assert forall k :: 0 < k < |dirs| ==> dirs[k] == rest[k - 1];
      ExactSizeEarliest(fs, root, rest, rules, name, size, scale, forceSvg);
      ExactSizeStep(fs, root, dirs, rules, name, size, scale, forceSvg);
      var r := TryGetIconExactSize(fs, root, dirs, rules, name, size, scale, forceSvg);
      if !(rules.matches(d, size, scale) && DirIcon(fs, root, d, name, forceSvg).Some?) {
        if r.Some? {
          var k :| 0 <= k < |rest| && rules.matches(rest[k], size, scale) && r == DirIcon(fs, root, rest[k], name, forceSvg);
          assert dirs[k + 1] == rest[k];
        }
        forall k | 0 < k < |dirs| && rules.matches(dirs[k], size, scale) && DirIcon(fs, root, dirs[k], name, forceSvg).Some?
                   && (forall j :: 0 <= j < k && rules.matches(dirs[j], size, scale) ==> DirIcon(fs, root, dirs[j], name, forceSvg).None?)
          ensures r == DirIcon(fs, root, dirs[k], name, forceSvg)
        {
          assert forall j :: 0 <= j < k - 1 && rules.matches(rest[j], size, scale) ==> DirIcon(fs, root, rest[j], name, forceSvg).None? by {
            forall j | 0 <= j < k - 1 && rules.matches(rest[j], size, scale) ensures DirIcon(fs, root, rest[j], name, forceSvg).None? {
              assert rest[j] == dirs[j + 1];
            }
          }
        }
      }
    }
  }

  /** One step of the exact pass: the first directory decides when it
      matches and holds the icon, otherwise the rest of the index does. */
  lemma ExactSizeStep(fs: FileSystem, root: Path, dirs: seq<Directory>, rules: SizeRules,
                      name: string, size: U16, scale: U16, forceSvg: bool)
    requires dirs != []
    ensures TryGetIconExactSize(fs, root, dirs, rules, name, size, scale, forceSvg)
         == if rules.matches(dirs[0], size, scale) && DirIcon(fs, root, dirs[0], name, forceSvg).Some?
            then DirIcon(fs, root, dirs[0], name, forceSvg)
            else TryGetIconExactSize(fs, root, dirs[1..], rules, name, size, scale, forceSvg)
  {
    var tail := MatchSize(root, dirs[1..], rules, size, scale);
    if rules.matches(dirs[0], size, scale) {
      var p := Join(root, dirs[0].name);
      assert MatchSize(root, dirs, rules, size, scale) == [p] + tail;
      assert ([p] + tail)[1..] == tail;
    } else {
      assert MatchSize(root, dirs, rules, size, scale) == tail;
    }
  }

  /** A Fixed directory is dropped from the closest pass when its scale is
      not the requested scale cast to `i16`. Only Fixed directories are
      ever dropped, and for a scale below 0x8000 the cast changes nothing. */
  function Excluded(d: Directory, scale: U16): (r: bool)
    ensures d.kind != Fixed ==> !r
    ensures scale < 0x8000 ==> (r <==> d.kind == Fixed && d.scale != scale)
  {
    d.kind == Fixed && d.scale != AsI16(scale)
  }

  /** The `filter_map` of `closest_match_size` from index position `from`
      on: every directory not excluded, with its distance and position. */
  function CandidatesFrom(dirs: seq<Directory>, rules: SizeRules, size: U16, scale: U16, from: nat): (r: seq<Candidate>)
    requires from <= |dirs|
    ensures |r| <= |dirs| - from
    ensures forall c :: c in r ==> from <= c.pos < |dirs| && c.dir == dirs[c.pos]
                                   && c.distance == rules.distance(c.dir, size, scale) && !Excluded(c.dir, scale)
    ensures forall k :: from <= k < |dirs| && !Excluded(dirs[k], scale) ==> exists c :: c in r && c.pos == k
    ensures IncreasingPos(r)
    decreases |dirs| - from
  {
    if from == |dirs| then []
    else
      var d := dirs[from];
      var rest := CandidatesFrom(dirs, rules, size, scale, from + 1);
      if Excluded(d, scale) then rest
      else
        var c := Candidate(d, rules.distance(d, size, scale), from);
        assert forall k :: 0 < k < |[c] + rest| ==> ([c] + rest)[k] in rest;
        [c] + rest
  }

  function Candidates(dirs: seq<Directory>, rules: SizeRules, size: U16, scale: U16): seq<Candidate>
  {
    CandidatesFrom(dirs, rules, size, scale, 0)
  }

  /** The candidates' directories joined under the root, in order. */
  function DirPaths(root: Path, cs: seq<Candidate>): (r: seq<Path>)
    ensures |r| == |cs| && forall k :: 0 <= k < |cs| ==> r[k] == Join(root, cs[k].dir.name)
  {
    seq(|cs|, k requires 0 <= k < |cs| => Join(root, cs[k].dir.name))
  }

  /** The ranked candidates of the closest pass. */
  function Ranked(dirs: seq<Directory>, rules: SizeRules, size: U16, scheme: SizeScheme, scale: U16): seq<Candidate>
  {
    Sorted(scheme, Candidates(dirs, rules, size, scale))
  }

  /** What `closest_match_size` returns. */
  function ClosestPaths(root: Path, dirs: seq<Directory>, rules: SizeRules, size: U16, scheme: SizeScheme, scale: U16): seq<Path>
  {
    DirPaths(root, Ranked(dirs, rules, size, scheme, scale))
  }

  /** The ranked candidates are the candidates, each once, stably sorted. */
  lemma RankedPermutes(dirs: seq<Directory>, rules: SizeRules, size: U16, scheme: SizeScheme, scale: U16)
    ensures var ranked := Ranked(dirs, rules, size, scheme, scale);
      && multiset(ranked) == multiset(Candidates(dirs, rules, size, scale))
      && StablySorted(scheme, ranked)
      && (forall c :: c in ranked ==> c in Candidates(dirs, rules, size, scale))
  {
    var cands := Candidates(dirs, rules, size, scale);
    var ranked := Ranked(dirs, rules, size, scheme, scale);
    SortedPermutes(scheme, cands);
    SortedStable(scheme, cands);
    forall c | c in ranked ensures c in cands {
      assert c in multiset(ranked);
    }
  }

  /** The closest pass keeps every directory except the Fixed ones of
      another scale, each exactly once with its own distance, stably sorted
      by the scheme's comparator, and is no longer than the index. */
  lemma ClosestPathsProperties(root: Path, dirs: seq<Directory>, rules: SizeRules, size: U16, scheme: SizeScheme, scale: U16)
    ensures var ranked, paths := Ranked(dirs, rules, size, scheme, scale), ClosestPaths(root, dirs, rules, size, scheme, scale);
      && |paths| == |ranked| <= |dirs|
      && multiset(ranked) == multiset(Candidates(dirs, rules, size, scale))
      && StablySorted(scheme, ranked)
      && (forall k :: 0 <= k < |ranked| ==>
            && paths[k] == Join(root, ranked[k].dir.name)
            && ranked[k].pos < |dirs| && ranked[k].dir == dirs[ranked[k].pos]
            && ranked[k].distance == rules.distance(ranked[k].dir, size, scale)
            && !(ranked[k].dir.kind == Fixed && ranked[k].dir.scale != AsI16(scale)))
      && (forall j :: 0 <= j < |dirs| && !Excluded(dirs[j], scale) ==> exists k :: 0 <= k < |ranked| && ranked[k].pos == j)
      && (forall k1, k2 :: 0 <= k1 < k2 < |ranked| ==> ranked[k1].pos != ranked[k2].pos)
  {
    var cands := Candidates(dirs, rules, size, scale);
    var ranked := Ranked(dirs, rules, size, scheme, scale);
    RankedPermutes(dirs, rules, size, scheme, scale);
    assert |ranked| == |multiset(ranked)| == |multiset(cands)| == |cands|;
    forall k | 0 <= k < |ranked| ensures ranked[k] in cands {
      assert ranked[k] in ranked;
    }
    forall j | 0 <= j < |dirs| && !Excluded(dirs[j], scale) ensures exists k :: 0 <= k < |ranked| && ranked[k].pos == j {
      var c :| c in cands && c.pos == j;
      assert c in multiset(ranked);
    }
    forall k1, k2 | 0 <= k1 < k2 < |ranked| ensures ranked[k1].pos != ranked[k2].pos {
      assert Precedes(scheme, ranked[k1], ranked[k2]);
    }
  }

  /** `closest_match_size`: collects the candidates, sorts them in place
      with the scheme's comparator and joins their directories under the
      root. */
  method ClosestMatchSize(root: Path, dirs: seq<Directory>, rules: SizeRules, size: U16, scheme: SizeScheme, scale: U16)
    returns (paths: seq<Path>)
    ensures paths == ClosestPaths(root, dirs, rules, size, scheme, scale)
  {
    var cands := Candidates(dirs, rules, size, scale);
    var a := new Candidate[|cands|](k requires 0 <= k < |cands| => cands[k]);
    assert a[..] == cands;
    SortCandidates(a, scheme);
    paths := DirPaths(root, a[..]);
  }

  /** `try_get_icon_closest_size`: the first icon built from the ranked
      directories. */
  function TryGetIconClosestSize(fs: FileSystem, root: Path, dirs: seq<Directory>, rules: SizeRules,
                                 name: string, size: U16, scheme: SizeScheme, scale: U16, forceSvg: bool): (r: Option<Path>)
    ensures r.Some? ==> Exists(fs, r.value)
  {
    FirstIcon(fs, name, ClosestPaths(root, dirs, rules, size, scheme, scale), forceSvg)
  }

  /** `Theme::try_get_icon`: the exact pass, and the closest pass only when
      the exact pass finds nothing. */
  function TryGetIcon(fs: FileSystem, root: Path, dirs: seq<Directory>, rules: SizeRules,
                      name: string, size: U16, scheme: SizeScheme, scale: U16, forceSvg: bool): (r: Option<Path>)
    ensures var exact := TryGetIconExactSize(fs, root, dirs, rules, name, size, scale, forceSvg);
      && (exact.Some? ==> r == exact)
      && (exact.None? ==> r == TryGetIconClosestSize(fs, root, dirs, rules, name, size, scheme, scale, forceSvg))
  {
    match TryGetIconExactSize(fs, root, dirs, rules, name, size, scale, forceSvg)
    case Some(p) => Some(p)
    case None => TryGetIconClosestSize(fs, root, dirs, rules, name, size, scheme, scale, forceSvg)
  }

  /** The closest pass finds nothing exactly when no directory it keeps
      holds the icon; what it finds was built in one of the index's
      directories. */
  lemma ClosestSound(fs: FileSystem, root: Path, dirs: seq<Directory>, rules: SizeRules,
                     name: string, size: U16, scheme: SizeScheme, scale: U16, forceSvg: bool)
    ensures var r := TryGetIconClosestSize(fs, root, dirs, rules, name, size, scheme, scale, forceSvg);
      && (r.None? <==> forall k :: 0 <= k < |dirs| && !Excluded(dirs[k], scale) ==> DirIcon(fs, root, dirs[k], name, forceSvg).None?)
      && (r.Some? ==> exists k :: 0 <= k < |dirs| && r == DirIcon(fs, root, dirs[k], name, forceSvg))
  {
    var ranked := Ranked(dirs, rules, size, scheme, scale);
    var closest := ClosestPaths(root, dirs, rules, size, scheme, scale);
    var r := TryGetIconClosestSize(fs, root, dirs, rules, name, size, scheme, scale, forceSvg);
    ClosestPathsProperties(root, dirs, rules, size, scheme, scale);
    FirstIconEarliest(fs, name, closest, forceSvg);
    if r.None? {
      forall j | 0 <= j < |dirs| && !Excluded(dirs[j], scale) ensures DirIcon(fs, root, dirs[j], name, forceSvg).None? {
        var k :| 0 <= k < |ranked| && ranked[k].pos == j;
        assert closest[k] == Join(root, dirs[j].name);
      }
    } else {
      var k :| 0 <= k < |closest| && r == TryBuildIconPath(fs, name, closest[k], forceSvg);
      var j := ranked[k].pos;
      assert closest[k] == Join(root, dirs[j].name);
      assert !Excluded(dirs[j], scale);
    }
  }

  /** The closest pass returns the icon of the best-ranked directory that
      holds one: no kept directory holding the icon is ranked strictly
      ahead of it. */
  lemma ClosestNearest(fs: FileSystem, root: Path, dirs: seq<Directory>, rules: SizeRules,
                       name: string, size: U16, scheme: SizeScheme, scale: U16, forceSvg: bool)
    ensures var r := TryGetIconClosestSize(fs, root, dirs, rules, name, size, scheme, scale, forceSvg);
      var ranked := Ranked(dirs, rules, size, scheme, scale);
      r.Some? ==>
        exists k :: 0 <= k < |ranked| && r == DirIcon(fs, root, ranked[k].dir, name, forceSvg)
          && forall j :: 0 <= j < |ranked| && DirIcon(fs, root, ranked[j].dir, name, forceSvg).Some?
                         ==> !Precedes(scheme, ranked[j], ranked[k])
  {
    var ranked := Ranked(dirs, rules, size, scheme, scale);
    var closest := ClosestPaths(root, dirs, rules, size, scheme, scale);
    var r := TryGetIconClosestSize(fs, root, dirs, rules, name, size, scheme, scale, forceSvg);
    SortedStable(scheme, Candidates(dirs, rules, size, scale));
    FirstIconEarliest(fs, name, closest, forceSvg);
    if r.Some? {
      var k :| 0 <= k < |closest| && r == TryBuildIconPath(fs, name, closest[k], forceSvg)
        && forall j :: 0 <= j < k ==> TryBuildIconPath(fs, name, closest[j], forceSvg).None?;
      forall j | 0 <= j < |ranked| && DirIcon(fs, root, ranked[j].dir, name, forceSvg).Some?
        ensures !Precedes(scheme, ranked[j], ranked[k])
      {
        assert closest[j] == Join(root, ranked[j].dir.name);
        PrecedesAsymmetric(scheme, ranked[j], ranked[k]);
        if k < j {
          assert Precedes(scheme, ranked[k], ranked[j]);
        }
      }
      assert r == DirIcon(fs, root, ranked[k].dir, name, forceSvg);
    }
  }

  /** An icon built in a directory is an existing file of the probing
      order there. */
  lemma DirIconInProbeOrder(fs: FileSystem, root: Path, d: Directory, name: string, forceSvg: bool)
    ensures var r := DirIcon(fs, root, d, name, forceSvg);
      r.Some? ==> Exists(fs, r.value) && r.value in ProbeOrder(Join(root, d.name), name, forceSvg)
  {
    BuildIsFirstExisting(fs, name, Join(root, d.name), forceSvg);
  }

  /** A returned icon is an existing file of the probing order in one of
      the index's directories; nothing is returned exactly when no matching
      directory and no directory kept by the closest pass holds the icon. */
  lemma TryGetIconSound(fs: FileSystem, root: Path, dirs: seq<Directory>, rules: SizeRules,
                        name: string, size: U16, scheme: SizeScheme, scale: U16, forceSvg: bool)
    ensures var r := TryGetIcon(fs, root, dirs, rules, name, size, scheme, scale, forceSvg);
      && (r.Some? ==> Exists(fs, r.value)
                      && exists k :: 0 <= k < |dirs| && r.value in ProbeOrder(Join(root, dirs[k].name), name, forceSvg))
      && (r.None? <==> (forall k :: 0 <= k < |dirs| && rules.matches(dirs[k], size, scale) ==> DirIcon(fs, root, dirs[k], name, forceSvg).None?)
                       && (forall k :: 0 <= k < |dirs| && !Excluded(dirs[k], scale) ==> DirIcon(fs, root, dirs[k], name, forceSvg).None?))
  {
    var r := TryGetIcon(fs, root, dirs, rules, name, size, scheme, scale, forceSvg);
    ExactSizeEarliest(fs, root, dirs, rules, name, size, scale, forceSvg);
    ClosestSound(fs, root, dirs, rules, name, size, scheme, scale, forceSvg);
    if r.Some? {
      var k :| 0 <= k < |dirs| && r == DirIcon(fs, root, dirs[k], name, forceSvg);
      DirIconInProbeOrder(fs, root, dirs[k], name, forceSvg);
    }
  }
}
