/** Theme discovery: `Theme::from_path` and the two-pass sweep of
    `get_all_themes` over the ordered icon base directories
    (src/theme/mod.rs). */
module Discovery {
  import opened Fs
  import opened ThemeErrors
  import opened ThemePaths
  import opened Seqs

  /** A theme directory together with the index file it is read through
      (its own, or the one first found for a theme of the same name). */
  datatype Theme = Theme(path: Path, index: Path)

  /** The directory's own `index.theme` exists and parses. */
  predicate OwnIndexLoads(fs: FileSystem, p: Path)
  {
    Index(fs, p, false).Ok?
  }

  /** `Theme::from_path(path, fallback)`, with the non-greedy index. */
  function FromPath(fs: FileSystem, path: Path, fallback: Option<Path>): (r: Option<Theme>)
    ensures !IsDir(fs, path) ==> r.None?
    ensures fallback.None? && !Exists(fs, IndexFile(path)) ==> r.None?
    ensures IsDir(fs, path) && fallback.Some? ==> r == Some(Theme(path, fallback.value))
    ensures fallback.None? ==> (r.Some? <==> IsDir(fs, path) && OwnIndexLoads(fs, path))
    ensures fallback.None? && r.Some? ==> r.value == Theme(path, IndexFile(path))
  {
    var hasIndex := Exists(fs, IndexFile(path)) || fallback.Some?;
    if !hasIndex || !IsDir(fs, path) then None
    else
      match (fallback, Index(fs, path, false))
      case (Some(index), _) => Some(Theme(path, index))
      case (None, Ok(_)) => Some(Theme(path, IndexFile(path)))
      case _ => None
  }

  // ---------------------------------------------------------------------
  // The specification: what the sweep finds

  /** An entry of a base directory's listing: its path and file name. */
  datatype Entry = Entry(path: Path, name: string)

  function EntriesOf(base: Path, names: seq<string>): seq<Entry>
  {
    seq(|names|, i requires 0 <= i < |names| => Entry(Join(base, names[i]), names[i]))
  }

  /** `read_dir` of one base directory; an unreadable one gives nothing. */
  function Entries(fs: FileSystem, base: Path): seq<Entry>
  {
    if base in fs.listings then EntriesOf(base, fs.listings[base]) else []
  }

  /** Every entry of every base directory, bases in order. */
  function Sweep(fs: FileSystem, bases: seq<Path>): seq<Entry>
  {
    if bases == [] then [] else Sweep(fs, bases[..|bases| - 1]) + Entries(fs, bases[|bases| - 1])
  }

  /** The directories named `n` among `es`, in sweep order. */
  function DirsNamed(fs: FileSystem, es: seq<Entry>, n: string): (r: seq<Path>)
    ensures forall p :: p in r ==> IsDir(fs, p)
    ensures |r| > 0 ==> exists e :: e in es && e.name == n
  {
    if es == [] then []
    else
      var e := es[|es| - 1];
      DirsNamed(fs, es[..|es| - 1], n) + (if e.name == n && IsDir(fs, e.path) then [e.path] else [])
  }

  /** The position of the first directory of `ps` whose own index loads. */
  function FirstOwnIndex(fs: FileSystem, ps: seq<Path>): (r: Option<nat>)
    ensures r.Some? ==> r.value < |ps| && OwnIndexLoads(fs, ps[r.value])
    ensures r.Some? ==> forall j :: 0 <= j < r.value ==> !OwnIndexLoads(fs, ps[j])
    ensures r.None? ==> forall j :: 0 <= j < |ps| ==> !OwnIndexLoads(fs, ps[j])
  {
    if ps == [] then None
    else
      var prev := FirstOwnIndex(fs, ps[..|ps| - 1]);
      if prev.Some? then prev
      else if OwnIndexLoads(fs, ps[|ps| - 1]) then Some(|ps| - 1)
      else None
  }

  function WithIndex(ps: seq<Path>, index: Path): (r: seq<Theme>)
    ensures |r| == |ps|
    ensures forall i :: 0 <= i < |ps| ==> r[i] == Theme(ps[i], index)
  {
    seq(|ps|, i requires 0 <= i < |ps| => Theme(ps[i], index))
  }

  /** The themes of one name: its directories from the first one whose own
      index loads to the end, then the earlier ones, all read through that
      first index. */
  function Rotated(fs: FileSystem, ps: seq<Path>): seq<Theme>
    requires FirstOwnIndex(fs, ps).Some?
  {
    var k := FirstOwnIndex(fs, ps).value;
    WithIndex(ps[k..] + ps[..k], IndexFile(ps[k]))
  }

  function Names(es: seq<Entry>): set<string>
  {
    set e | e in es :: e.name
  }

  /** The themes found among the entries `es`, by name. */
  function CatalogOf(fs: FileSystem, es: seq<Entry>): map<string, seq<Theme>>
  {
    map n | n in Names(es) && FirstOwnIndex(fs, DirsNamed(fs, es, n)).Some? :: Rotated(fs, DirsNamed(fs, es, n))
  }

  /** The themes found under the base directories `bases`. */
  function Catalog(fs: FileSystem, bases: seq<Path>): map<string, seq<Theme>>
  {
    CatalogOf(fs, Sweep(fs, bases))
  }

  // ---------------------------------------------------------------------
  // The two passes, as folds over the entries

  /** The state of the first pass: the index recorded per name, the themes
      so far, and the directories put aside for the second pass. */
  datatype Pass = Pass(found: map<string, Path>, themes: map<string, seq<Theme>>, revisit: seq<Entry>)

  function Get(m: map<string, seq<Theme>>, n: string): seq<Theme>
  {
    if n in m then m[n] else []
  }

  function Lookup(found: map<string, Path>, n: string): Option<Path>
  {
    if n in found then Some(found[n]) else None
  }

  /** One entry of the first pass. */
  function Step(fs: FileSystem, st: Pass, e: Entry): Pass
  {
    var fallback := Lookup(st.found, e.name);
    match FromPath(fs, e.path, fallback)
    case Some(t) =>
      Pass(if fallback.None? then st.found[e.name := t.index] else st.found,
           st.themes[e.name := Get(st.themes, e.name) + [t]],
           st.revisit)
    case None =>
      if IsDir(fs, e.path) then st.(revisit := st.revisit + [e]) else st
  }

  function FirstPass(fs: FileSystem, es: seq<Entry>): Pass
  {
    if es == [] then Pass(map[], map[], [])
    else Step(fs, FirstPass(fs, es[..|es| - 1]), es[|es| - 1])
  }

  /** The second pass over the put-aside entries `rs`. */
  function SecondPass(fs: FileSystem, found: map<string, Path>, themes: map<string, seq<Theme>>, rs: seq<Entry>): map<string, seq<Theme>>
  {
    if rs == [] then themes
    else
      var prev := SecondPass(fs, found, themes, rs[..|rs| - 1]);
      var e := rs[|rs| - 1];
      match FromPath(fs, e.path, Lookup(found, e.name))
      case Some(t) => prev[e.name := Get(prev, e.name) + [t]]
      case None => prev
  }

  /** The put-aside directories named `n`, in order. */
  function RevisitNamed(rs: seq<Entry>, n: string): seq<Path>
  {
    if rs == [] then []
    else
      var e := rs[|rs| - 1];
      RevisitNamed(rs[..|rs| - 1], n) + (if e.name == n then [e.path] else [])
  }

  // ---------------------------------------------------------------------
  // The folds meet the specification

  /** What the first pass knows about one name after the entries `es`. */
  ghost predicate FirstPassAt(fs: FileSystem, es: seq<Entry>, n: string)
  {
    var st := FirstPass(fs, es);
    var ps := DirsNamed(fs, es, n);
    var k := FirstOwnIndex(fs, ps);
    && (n in st.found <==> k.Some?)
    && (n in st.themes <==> k.Some?)
    && (k.Some? ==> st.found[n] == IndexFile(ps[k.value])
                    && st.themes[n] == WithIndex(ps[k.value..], IndexFile(ps[k.value])))
    && RevisitNamed(st.revisit, n) == (if k.Some? then ps[..k.value] else ps)
  }

  /** The put-aside entries are directories whose own index does not load. */
  ghost predicate RevisitOk(fs: FileSystem, rs: seq<Entry>)
  {
    forall i :: 0 <= i < |rs| ==> IsDir(fs, rs[i].path) && !OwnIndexLoads(fs, rs[i].path)
  }

  lemma {:induction false} FirstPassRevisitOk(fs: FileSystem, es: seq<Entry>)
    ensures RevisitOk(fs, FirstPass(fs, es).revisit)
  {
    if es != [] {
      FirstPassRevisitOk(fs, es[..|es| - 1]);
    }
  }

  lemma {:induction false} FirstPassSpec(fs: FileSystem, es: seq<Entry>, n: string)
    ensures FirstPassAt(fs, es, n)
  {
    if es == [] {
      assert FirstPass(fs, es) == Pass(map[], map[], []);
      assert DirsNamed(fs, es, n) == [];
    } else {
      var init := es[..|es| - 1];
      var e := es[|es| - 1];
      FirstPassSpec(fs, init, n);
      assert es == init + [e];
      FirstPassStep(fs, init, e, n);
    }
  }

  /** One more entry keeps what the first pass knows about `n` true. */
  lemma FirstPassStep(fs: FileSystem, init: seq<Entry>, e: Entry, n: string)
    requires FirstPassAt(fs, init, n)
    ensures FirstPassAt(fs, init + [e], n)
  {
    if e.name != n {
      FirstPassStepOther(fs, init, e, n);
    } else if !IsDir(fs, e.path) {
      FirstPassStepNotDir(fs, init, e, n);
    } else {
      var k := FirstOwnIndex(fs, DirsNamed(fs, init, n));
      if k.Some? {
        FirstPassStepKnown(fs, init, e, n);
      } else if OwnIndexLoads(fs, e.path) {
        FirstPassStepFirst(fs, init, e, n);
      } else {
        FirstPassStepDeferred(fs, init, e, n);
      }
    }
  }

  lemma FirstPassStepOther(fs: FileSystem, init: seq<Entry>, e: Entry, n: string)
    requires FirstPassAt(fs, init, n)
    requires e.name != n
    ensures FirstPassAt(fs, init + [e], n)
  {
    var es := init + [e];
    assert es[..|es| - 1] == init;
    assert DirsNamed(fs, es, n) == DirsNamed(fs, init, n);
    var st := FirstPass(fs, init);
    var st' := FirstPass(fs, es);
    assert st' == Step(fs, st, e);
    match FromPath(fs, e.path, Lookup(st.found, e.name)) {
      case Some(t) =>
        assert st'.revisit == st.revisit;
      case None =>
        assert st'.found == st.found && st'.themes == st.themes;
        if IsDir(fs, e.path) {
          assert st'.revisit == st.revisit + [e];
          assert (st.revisit + [e])[..|st.revisit|] == st.revisit;
        }
    }
    assert (n in st'.found <==> n in st.found) && (n in st.found ==> st'.found[n] == st.found[n]);
    assert (n in st'.themes <==> n in st.themes) && (n in st.themes ==> st'.themes[n] == st.themes[n]);
  }

  lemma FirstPassStepNotDir(fs: FileSystem, init: seq<Entry>, e: Entry, n: string)
    requires FirstPassAt(fs, init, n)
    requires !IsDir(fs, e.path)
    ensures FirstPassAt(fs, init + [e], n)
  {
    var es := init + [e];
    assert es[..|es| - 1] == init;
    assert DirsNamed(fs, es, n) == DirsNamed(fs, init, n);
    var st := FirstPass(fs, init);
    assert Step(fs, st, e) == st;
  }

  /** A directory named `n` appended to the entries. */
  lemma NamedSnoc(fs: FileSystem, init: seq<Entry>, e: Entry, n: string)
    requires e.name == n && IsDir(fs, e.path)
    ensures DirsNamed(fs, init + [e], n) == DirsNamed(fs, init, n) + [e.path]
    ensures FirstPass(fs, init + [e]) == Step(fs, FirstPass(fs, init), e)
  {
    var es := init + [e];
    assert es[..|es| - 1] == init;
  }

  /** A further directory of a name whose index is already recorded is
      added with that index. */
  lemma FirstPassStepKnown(fs: FileSystem, init: seq<Entry>, e: Entry, n: string)
    requires FirstPassAt(fs, init, n)
    requires e.name == n && IsDir(fs, e.path)
    requires FirstOwnIndex(fs, DirsNamed(fs, init, n)).Some?
    ensures FirstPassAt(fs, init + [e], n)
  {
    NamedSnoc(fs, init, e, n);
    var st, st' := FirstPass(fs, init), FirstPass(fs, init + [e]);
    var ps, ps' := DirsNamed(fs, init, n), DirsNamed(fs, init + [e], n);
    var k := FirstOwnIndex(fs, ps).value;
    var t := Theme(e.path, IndexFile(ps[k]));
    var index := IndexFile(ps[k]);
    SliceSnoc(ps, e.path, k);
    assert Lookup(st.found, n) == Some(index);
    assert FromPath(fs, e.path, Some(index)) == Some(t);
    assert st' == Pass(st.found, st.themes[n := st.themes[n] + [t]], st.revisit);
    assert FirstOwnIndex(fs, ps') == Some(k);
    assert ps'[k] == ps[k];
    WithIndexAppend(ps[k..], [e.path], index);
    assert WithIndex([e.path], index) == [t];
    assert st'.themes[n] == WithIndex(ps'[k..], index);
  }

  /** The first directory of a name whose own index loads records it. */
  lemma FirstPassStepFirst(fs: FileSystem, init: seq<Entry>, e: Entry, n: string)
    requires FirstPassAt(fs, init, n)
    requires e.name == n && IsDir(fs, e.path)
    requires FirstOwnIndex(fs, DirsNamed(fs, init, n)).None? && OwnIndexLoads(fs, e.path)
    ensures FirstPassAt(fs, init + [e], n)
  {
    NamedSnoc(fs, init, e, n);
    var st, st' := FirstPass(fs, init), FirstPass(fs, init + [e]);
    var ps, ps' := DirsNamed(fs, init, n), DirsNamed(fs, init + [e], n);
    var t := Theme(e.path, IndexFile(e.path));
    SliceSnoc(ps, e.path, |ps|);
    assert Lookup(st.found, n) == None && Get(st.themes, n) == [];
    assert FromPath(fs, e.path, None) == Some(t);
    assert st' == Pass(st.found[n := IndexFile(e.path)], st.themes[n := Get(st.themes, n) + [t]], st.revisit);
    assert FirstOwnIndex(fs, ps') == Some(|ps|);
    assert ps[|ps|..] == [];
  }

  /** A directory of a name with no loading index yet is put aside. */
  lemma FirstPassStepDeferred(fs: FileSystem, init: seq<Entry>, e: Entry, n: string)
    requires FirstPassAt(fs, init, n)
    requires e.name == n && IsDir(fs, e.path)
    requires FirstOwnIndex(fs, DirsNamed(fs, init, n)).None? && !OwnIndexLoads(fs, e.path)
    ensures FirstPassAt(fs, init + [e], n)
  {
    NamedSnoc(fs, init, e, n);
    var st, st' := FirstPass(fs, init), FirstPass(fs, init + [e]);
    var ps, ps' := DirsNamed(fs, init, n), DirsNamed(fs, init + [e], n);
    SliceSnoc(ps, e.path, |ps|);
    assert st' == st.(revisit := st.revisit + [e]);
    assert FirstOwnIndex(fs, ps').None?;
    SliceSnoc(st.revisit, e, |st.revisit|);
  }

  /** What the second pass does to one name. */
  lemma {:induction false} SecondPassSpec(fs: FileSystem, found: map<string, Path>, themes: map<string, seq<Theme>>,
                                          rs: seq<Entry>, n: string)
    requires RevisitOk(fs, rs)
    requires n in found ==> n in themes
    ensures var r := SecondPass(fs, found, themes, rs);
      && (n in found ==> n in r && r[n] == Get(themes, n) + WithIndex(RevisitNamed(rs, n), found[n]))
      && (n !in found ==> (n in r <==> n in themes) && (n in themes ==> r[n] == themes[n]))
  {
    if rs != [] {
      var init := rs[..|rs| - 1];
      var e := rs[|rs| - 1];
      assert RevisitOk(fs, init) by {
        forall i | 0 <= i < |init| ensures IsDir(fs, init[i].path) && !OwnIndexLoads(fs, init[i].path) {
          assert init[i] == rs[i];
        }
      }
      SecondPassSpec(fs, found, themes, init, n);
      assert IsDir(fs, e.path) && !OwnIndexLoads(fs, e.path);
      var ps := RevisitNamed(init, n);
      if e.name == n {
        assert RevisitNamed(rs, n) == ps + [e.path];
        if n in found {
          var prev := SecondPass(fs, found, themes, init);
          assert SecondPass(fs, found, themes, rs) == prev[n := prev[n] + [Theme(e.path, found[n])]];
          assert WithIndex(ps + [e.path], found[n]) == WithIndex(ps, found[n]) + [Theme(e.path, found[n])];
        } else {
          assert FromPath(fs, e.path, Lookup(found, e.name)).None?;
        }
      } else {
        assert RevisitNamed(rs, n) == ps;
      }
    }
  }

  lemma WithIndexAppend(a: seq<Path>, b: seq<Path>, index: Path)
    ensures WithIndex(a + b, index) == WithIndex(a, index) + WithIndex(b, index)
  {
  }

  /** The two passes together produce the catalog. */
  lemma PassesMeetCatalog(fs: FileSystem, es: seq<Entry>)
    ensures var st := FirstPass(fs, es);
      SecondPass(fs, st.found, st.themes, st.revisit) == CatalogOf(fs, es)
  {
    var st := FirstPass(fs, es);
    var r := SecondPass(fs, st.found, st.themes, st.revisit);
    var c := CatalogOf(fs, es);
    FirstPassRevisitOk(fs, es);
    forall n ensures (n in r <==> n in c) && (n in c ==> r[n] == c[n]) {
      FirstPassSpec(fs, es, n);
      SecondPassSpec(fs, st.found, st.themes, st.revisit, n);
      var ps := DirsNamed(fs, es, n);
      var k := FirstOwnIndex(fs, ps);
      if k.Some? {
        var e :| e in es && e.name == n;
        assert n in Names(es);
        WithIndexAppend(ps[k.value..], ps[..k.value], IndexFile(ps[k.value]));
      }
    }
  }

  // ---------------------------------------------------------------------
  // Properties of the catalog

  function PathsOf(ts: seq<Theme>): (r: seq<Path>)
    ensures |r| == |ts| && forall i :: 0 <= i < |ts| ==> r[i] == ts[i].path
  {
    seq(|ts|, i requires 0 <= i < |ts| => ts[i].path)
  }

  /** A name is catalogued exactly when one of the directories of that name
      has an own index that loads. */
  lemma CatalogDomain(fs: FileSystem, bases: seq<Path>, n: string)
    ensures var ps := DirsNamed(fs, Sweep(fs, bases), n);
      n in Catalog(fs, bases) <==> exists i :: 0 <= i < |ps| && OwnIndexLoads(fs, ps[i])
  {
    var es := Sweep(fs, bases);
    var ps := DirsNamed(fs, es, n);
    var k := FirstOwnIndex(fs, ps);
    if k.Some? {
      var e :| e in es && e.name == n;
      assert n in Names(es);
      assert n in CatalogOf(fs, es);
      assert 0 <= k.value < |ps| && OwnIndexLoads(fs, ps[k.value]);
    } else {
      assert n !in CatalogOf(fs, es);
    }
  }

  /** The themes of a name: never empty; each a directory of that name, each
      such directory exactly once; all read through the index of the first
      one, which is the earliest directory of that name in the sweep whose
      own index loads; the directories after it come first in sweep order,
      the earlier ones (put aside by the first pass) after them. */
  lemma CatalogShape(fs: FileSystem, bases: seq<Path>, n: string)
    requires n in Catalog(fs, bases)
    ensures var ts := Catalog(fs, bases)[n];
      var ps := DirsNamed(fs, Sweep(fs, bases), n);
      && |ts| == |ps| > 0
      && (forall i :: 0 <= i < |ts| ==> IsDir(fs, ts[i].path) && ts[i].index == IndexFile(ts[0].path))
      && OwnIndexLoads(fs, ts[0].path)
      && multiset(PathsOf(ts)) == multiset(ps)
      && exists k: nat :: FirstDirWithIndex(fs, ps, k) && PathsOf(ts) == ps[k..] + ps[..k]
  {
    var es := Sweep(fs, bases);
    var ps := DirsNamed(fs, es, n);
    assert FirstOwnIndex(fs, ps).Some?;
    assert Catalog(fs, bases)[n] == Rotated(fs, ps);
    RotatedShape(fs, ps);
  }

  /** `ps[k]` is the first of `ps` whose own index loads. */
  predicate FirstDirWithIndex(fs: FileSystem, ps: seq<Path>, k: nat)
  {
    && k < |ps| && OwnIndexLoads(fs, ps[k])
    && forall j :: 0 <= j < k ==> !OwnIndexLoads(fs, ps[j])
  }

  lemma RotatedShape(fs: FileSystem, ps: seq<Path>)
    requires FirstOwnIndex(fs, ps).Some?
    requires forall p :: p in ps ==> IsDir(fs, p)
    ensures var k := FirstOwnIndex(fs, ps).value;
      var ts := Rotated(fs, ps);
      && |ts| == |ps| > 0
      && FirstDirWithIndex(fs, ps, k)
      && PathsOf(ts) == ps[k..] + ps[..k]
      && multiset(PathsOf(ts)) == multiset(ps)
      && ts[0].path == ps[k]
      && (forall i :: 0 <= i < |ts| ==> IsDir(fs, ts[i].path) && ts[i].index == IndexFile(ts[0].path))
  {
    var k := FirstOwnIndex(fs, ps).value;
    var ts := Rotated(fs, ps);
    assert PathsOf(ts) == ps[k..] + ps[..k];
    RotationPermutes(ps, k);
    forall i | 0 <= i < |ts| ensures IsDir(fs, ts[i].path) {
      assert ts[i].path in ps;
    }
  }

  lemma SweepSnocAny(fs: FileSystem, s: seq<Path>, x: Path)
    ensures Sweep(fs, s + [x]) == Sweep(fs, s) + Entries(fs, x)
  {
    assert (s + [x])[..|s|] == s;
  }

  lemma {:induction false} SweepAppend(fs: FileSystem, a: seq<Path>, c: seq<Path>)
    ensures Sweep(fs, a + c) == Sweep(fs, a) + Sweep(fs, c)
    decreases |c|
  {
    if c == [] {
      assert a + c == a;
    } else {
      var c', last := c[..|c| - 1], c[|c| - 1];
      SweepAppend(fs, a, c');
      SplitLast(a, c);
      SweepSnocAny(fs, a + c', last);
      SweepSnocAny(fs, c', last);
      Associative(Sweep(fs, a), Sweep(fs, c'), Entries(fs, last));
    }
  }

  /** A base directory that cannot be read changes nothing. */
  lemma UnreadableBaseSkipped(fs: FileSystem, a: seq<Path>, b: Path, c: seq<Path>)
    requires b !in fs.listings
    ensures Catalog(fs, a + [b] + c) == Catalog(fs, a + c)
  {
    var ab := a + [b];
    SweepAppend(fs, ab, c);
    SweepAppend(fs, a, c);
    assert ab[..|ab| - 1] == a;
    assert Sweep(fs, ab) == Sweep(fs, a) + Entries(fs, b);
    assert Sweep(fs, a + [b] + c) == Sweep(fs, a + c);
  }

  // ---------------------------------------------------------------------
  // The sweep itself

  lemma EntriesOfSnoc(base: Path, names: seq<string>, j: nat)
    requires j < |names|
    ensures EntriesOf(base, names[..j + 1]) == EntriesOf(base, names[..j]) + [Entry(Join(base, names[j]), names[j])]
  {
  }

  lemma FirstPassSnoc(fs: FileSystem, es: seq<Entry>, e: Entry)
    ensures FirstPass(fs, es + [e]) == Step(fs, FirstPass(fs, es), e)
  {
    assert (es + [e])[..|es|] == es;
  }

  lemma SecondPassSnoc(fs: FileSystem, found: map<string, Path>, themes: map<string, seq<Theme>>, rs: seq<Entry>, j: nat)
    requires j < |rs|
    ensures var prev := SecondPass(fs, found, themes, rs[..j]);
      var e := rs[j];
      SecondPass(fs, found, themes, rs[..j + 1])
        == match FromPath(fs, e.path, Lookup(found, e.name))
           case Some(t) => prev[e.name := Get(prev, e.name) + [t]]
           case None => prev
  {
    assert rs[..j + 1][..j] == rs[..j];
  }

  lemma SweepSnoc(fs: FileSystem, bases: seq<Path>, b: nat)
    requires b < |bases|
    ensures Sweep(fs, bases[..b + 1]) == Sweep(fs, bases[..b]) + Entries(fs, bases[b])
  {
    assert bases[..b + 1][..b] == bases[..b];
  }

  /** One entry of the first pass: accept it as a theme (recording its
      index when it is the first of its name), put it aside when it is a
      directory without a usable index, or drop it. */
  method Visit(fs: FileSystem, found: map<string, Path>, themes: map<string, seq<Theme>>, toRevisit: seq<Entry>, entry: Entry)
    returns (found': map<string, Path>, themes': map<string, seq<Theme>>, toRevisit': seq<Entry>)
    ensures Pass(found', themes', toRevisit') == Step(fs, Pass(found, themes, toRevisit), entry)
  {
    found', themes', toRevisit' := found, themes, toRevisit;
    var name := entry.name;
    var fallback := if name in found then Some(found[name]) else None;
    match FromPath(fs, entry.path, fallback) {
      case Some(theme) =>
        if fallback.None? {
          found' := found[name := theme.index];
        }
        themes' := themes[name := (if name in themes then themes[name] else []) + [theme]];
      case None =>
        if IsDir(fs, entry.path) {
          toRevisit' := toRevisit + [entry];
        }
    }
  }

  /** The first pass over one readable base directory: visit each entry of
      its listing in order. */
  method VisitBase(fs: FileSystem, ghost done: seq<Entry>, base: Path,
                   found: map<string, Path>, themes: map<string, seq<Theme>>, toRevisit: seq<Entry>)
    returns (found': map<string, Path>, themes': map<string, seq<Theme>>, toRevisit': seq<Entry>)
    requires base in fs.listings
    requires Pass(found, themes, toRevisit) == FirstPass(fs, done)
    ensures Pass(found', themes', toRevisit') == FirstPass(fs, done + Entries(fs, base))
  {
    found', themes', toRevisit' := found, themes, toRevisit;
    var names := fs.listings[base];
    assert done + EntriesOf(base, names[..0]) == done;
    for j := 0 to |names|
      invariant Pass(found', themes', toRevisit') == FirstPass(fs, done + EntriesOf(base, names[..j]))
    {
      var name := names[j];
      var path := Join(base, name);
      EntriesOfSnoc(base, names, j);
      Associative(done, EntriesOf(base, names[..j]), [Entry(path, name)]);
      FirstPassSnoc(fs, done + EntriesOf(base, names[..j]), Entry(path, name));
      found', themes', toRevisit' := Visit(fs, found', themes', toRevisit', Entry(path, name));
    }
    assert names[..|names|] == names;
  }

  /** The second pass: each put-aside entry is retried with the index
      recorded for its name, if any. */
  method Revisit(fs: FileSystem, found: map<string, Path>, firstThemes: map<string, seq<Theme>>, toRevisit: seq<Entry>)
    returns (themes: map<string, seq<Theme>>)
    ensures themes == SecondPass(fs, found, firstThemes, toRevisit)
  {
    themes := firstThemes;
    for r := 0 to |toRevisit|
      invariant themes == SecondPass(fs, found, firstThemes, toRevisit[..r])
    {
      SecondPassSnoc(fs, found, firstThemes, toRevisit, r);
      var entry := toRevisit[r];
      var fallback := if entry.name in found then Some(found[entry.name]) else None;
      match FromPath(fs, entry.path, fallback) {
        case Some(theme) =>
          themes := themes[entry.name := (if entry.name in themes then themes[entry.name] else []) + [theme]];
        case None =>
      }
    }
    assert toRevisit[..|toRevisit|] == toRevisit;
  }

  /** `get_all_themes`, over the given base directories. */
  method GetAllThemes(fs: FileSystem, bases: seq<Path>) returns (themes: map<string, seq<Theme>>)
    ensures themes == Catalog(fs, bases)
  {
    themes := map[];
    var found: map<string, Path> := map[];
    var toRevisit: seq<Entry> := [];
    for b := 0 to |bases|
      invariant Pass(found, themes, toRevisit) == FirstPass(fs, Sweep(fs, bases[..b]))
    {
      SweepSnoc(fs, bases, b);
      var base := bases[b];
      if base !in fs.listings {
        // unable to read the base directory: skip it
        assert Sweep(fs, bases[..b + 1]) == Sweep(fs, bases[..b]);
        continue;
      }
      found, themes, toRevisit := VisitBase(fs, Sweep(fs, bases[..b]), base, found, themes, toRevisit);
    }
    assert bases[..|bases|] == bases;
    themes := Revisit(fs, found, themes, toRevisit);
    PassesMeetCatalog(fs, Sweep(fs, bases));
  }
}
