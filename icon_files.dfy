/** Building the file path of an icon inside one candidate directory, by
    probing file extensions in priority order. */
module IconFiles {
  import opened Fs

  /** `<dir>/<name>.<ext>` */
  function IconFile(dir: Path, name: string, ext: string): Path
  {
    Join(dir, name + "." + ext)
  }

  /** The extensions probed, highest priority first. */
  function Extensions(forceSvg: bool): seq<string>
  {
    if forceSvg then ["svg"] else ["png", "svg", "xmp"]
  }

  /** The files probed for `name` in `dir`, in probing order. */
  function ProbeOrder(dir: Path, name: string, forceSvg: bool): (r: seq<Path>)
    ensures |r| == |Extensions(forceSvg)|
    ensures forall k :: 0 <= k < |r| ==> r[k] == IconFile(dir, name, Extensions(forceSvg)[k])
  {
    var exts := Extensions(forceSvg);
    seq(|exts|, k requires 0 <= k < |exts| => IconFile(dir, name, exts[k]))
  }

  /** Reference definition: the first path of `candidates` that exists. */
  function FirstExisting(fs: FileSystem, candidates: seq<Path>): (r: Option<Path>)
    ensures r.None? <==> forall k :: 0 <= k < |candidates| ==> !Exists(fs, candidates[k])
    ensures r.Some? ==> exists k :: 0 <= k < |candidates| && r.value == candidates[k] && Exists(fs, r.value)
                          && forall j :: 0 <= j < k ==> !Exists(fs, candidates[j])
    decreases |candidates|
  {
    if candidates == [] then None
    else if Exists(fs, candidates[0]) then Some(candidates[0])
    else
      var r := FirstExisting(fs, candidates[1..]);
      assert r.Some? ==> exists k :: 1 <= k < |candidates| && r.value == candidates[k]
                            && forall j :: 0 <= j < k ==> !Exists(fs, candidates[j]) by {
        if r.Some? {
          var k :| 0 <= k < |candidates[1..]| && r.value == candidates[1..][k] && Exists(fs, r.value)
                   && forall j :: 0 <= j < k ==> !Exists(fs, candidates[1..][j]);
          assert forall j :: 0 <= j < k + 1 ==> !Exists(fs, candidates[j]) by {
            forall j | 0 <= j < k + 1 ensures !Exists(fs, candidates[j]) {
              if j > 0 { assert candidates[j] == candidates[1..][j - 1]; }
            }
          }
        }
      }
      r
  }

  /** `try_build_svg`: `<dir>/<name>.svg` when that file exists. */
  function TryBuildSvg(fs: FileSystem, name: string, dir: Path): (r: Option<Path>)
    ensures r.Some? <==> Exists(fs, IconFile(dir, name, "svg"))
    ensures r.Some? ==> r.value == IconFile(dir, name, "svg")
  {
    var svg := IconFile(dir, name, "svg");
    if Exists(fs, svg) then Some(svg) else None
  }

  /** `try_build_png`: `<dir>/<name>.png` when that file exists. */
  function TryBuildPng(fs: FileSystem, name: string, dir: Path): (r: Option<Path>)
    ensures r.Some? <==> Exists(fs, IconFile(dir, name, "png"))
    ensures r.Some? ==> r.value == IconFile(dir, name, "png")
  {
    var png := IconFile(dir, name, "png");
    if Exists(fs, png) then Some(png) else None
  }

  /** `try_build_xmp`: `<dir>/<name>.xmp` when that file exists. */
  function TryBuildXmp(fs: FileSystem, name: string, dir: Path): (r: Option<Path>)
    ensures r.Some? <==> Exists(fs, IconFile(dir, name, "xmp"))
    ensures r.Some? ==> r.value == IconFile(dir, name, "xmp")
  {
    var xmp := IconFile(dir, name, "xmp");
    if Exists(fs, xmp) then Some(xmp) else None
  }

  /** `Option::or_else` */
  function OrElse(a: Option<Path>, b: Option<Path>): Option<Path>
  {
    if a.Some? then a else b
  }

  /** `try_build_icon_path`: the chain of `or_else` probes. With `forceSvg`
      only the svg file is probed, otherwise png, then svg, then xmp. It
      finds nothing exactly when no probed file exists; `BuildIsFirstExisting`
      shows it is the first existing file of the probing order. */
  function TryBuildIconPath(fs: FileSystem, name: string, dir: Path, forceSvg: bool): (r: Option<Path>)
    ensures r.Some? ==> Exists(fs, r.value)
    ensures r.None? <==> !Exists(fs, IconFile(dir, name, "svg"))
                         && (forceSvg || (!Exists(fs, IconFile(dir, name, "png")) && !Exists(fs, IconFile(dir, name, "xmp"))))
  {
    if forceSvg then TryBuildSvg(fs, name, dir)
    else OrElse(TryBuildPng(fs, name, dir), OrElse(TryBuildSvg(fs, name, dir), TryBuildXmp(fs, name, dir)))
  }

  /** `try_build_icon_path` returns the first existing file of the probing
      order. */
  lemma BuildIsFirstExisting(fs: FileSystem, name: string, dir: Path, forceSvg: bool)
    ensures TryBuildIconPath(fs, name, dir, forceSvg) == FirstExisting(fs, ProbeOrder(dir, name, forceSvg))
  {
    var png, svg, xmp := IconFile(dir, name, "png"), IconFile(dir, name, "svg"), IconFile(dir, name, "xmp");
    if forceSvg {
      assert ProbeOrder(dir, name, forceSvg) == [svg];
      assert [svg][1..] == [];
    } else {
      assert ProbeOrder(dir, name, forceSvg) == [png, svg, xmp];
      assert [png, svg, xmp][1..] == [svg, xmp] && [svg, xmp][1..] == [xmp] && [xmp][1..] == [];
      assert FirstExisting(fs, [xmp]) == TryBuildXmp(fs, name, dir);
      assert FirstExisting(fs, [svg, xmp]) == OrElse(TryBuildSvg(fs, name, dir), TryBuildXmp(fs, name, dir));
    }
  }

  /** The format priority, spelled out per extension. */
  lemma FormatPriority(fs: FileSystem, name: string, dir: Path, forceSvg: bool)
    ensures var r := TryBuildIconPath(fs, name, dir, forceSvg);
      var png, svg, xmp := IconFile(dir, name, "png"), IconFile(dir, name, "svg"), IconFile(dir, name, "xmp");
      && (forceSvg ==> r == (if Exists(fs, svg) then Some(svg) else None))
      && (!forceSvg && Exists(fs, png) ==> r == Some(png))
      && (!forceSvg && !Exists(fs, png) && Exists(fs, svg) ==> r == Some(svg))
      && (!forceSvg && r.Some? && r.value == xmp ==> !Exists(fs, png) && !Exists(fs, svg))
      && (!forceSvg ==> (r.None? <==> !Exists(fs, png) && !Exists(fs, svg) && !Exists(fs, xmp)))
      && (r.Some? ==> r.value in [png, svg, xmp] && Exists(fs, r.value))
  {
    BuildIsFirstExisting(fs, name, dir, forceSvg);
    var png, svg, xmp := IconFile(dir, name, "png"), IconFile(dir, name, "svg"), IconFile(dir, name, "xmp");
    assert (name + ".png")[|name| + 1] == 'p' && (name + ".svg")[|name| + 1] == 's' && (name + ".xmp")[|name| + 1] == 'x';
    assert png[|dir| + 1 + |name| + 1] == 'p';
    assert svg[|dir| + 1 + |name| + 1] == 's';
    assert xmp[|dir| + 1 + |name| + 1] == 'x';
  }

  /** `find_map(|path| try_build_icon_path(name, path, force_svg))` over a
      sequence of directories. Whatever it finds exists; `FirstIconEarliest`
      says which directory it comes from. */
  function FirstIcon(fs: FileSystem, name: string, dirs: seq<Path>, forceSvg: bool): (r: Option<Path>)
    ensures r.Some? ==> Exists(fs, r.value)
    decreases |dirs|
  {
    if dirs == [] then None
    else if TryBuildIconPath(fs, name, dirs[0], forceSvg).Some? then TryBuildIconPath(fs, name, dirs[0], forceSvg)
    else FirstIcon(fs, name, dirs[1..], forceSvg)
  }

  /** `FirstIcon` is the icon of the earliest directory that yields one, and
      nothing exactly when no directory does. */
  lemma {:induction false} FirstIconEarliest(fs: FileSystem, name: string, dirs: seq<Path>, forceSvg: bool)
    ensures var r := FirstIcon(fs, name, dirs, forceSvg);
      && (r.None? <==> forall k :: 0 <= k < |dirs| ==> TryBuildIconPath(fs, name, dirs[k], forceSvg).None?)
      && (r.Some? ==> exists k :: 0 <= k < |dirs| && r == TryBuildIconPath(fs, name, dirs[k], forceSvg)
                        && forall j :: 0 <= j < k ==> TryBuildIconPath(fs, name, dirs[j], forceSvg).None?)
    decreases |dirs|
  {
    if dirs != [] && TryBuildIconPath(fs, name, dirs[0], forceSvg).None? {
      FirstIconEarliest(fs, name, dirs[1..], forceSvg);
      FirstIconShift(fs, name, dirs, forceSvg, FirstIcon(fs, name, dirs[1..], forceSvg));
    }
  }

  /** The step of `FirstIcon` past a first directory that yields nothing. */
  lemma FirstIconShift(fs: FileSystem, name: string, dirs: seq<Path>, forceSvg: bool, r: Option<Path>)
    requires dirs != [] && TryBuildIconPath(fs, name, dirs[0], forceSvg).None?
    requires r.None? <==> forall k :: 0 <= k < |dirs[1..]| ==> TryBuildIconPath(fs, name, dirs[1..][k], forceSvg).None?
    requires r.Some? ==> exists k :: 0 <= k < |dirs[1..]| && r == TryBuildIconPath(fs, name, dirs[1..][k], forceSvg)
                           && forall j :: 0 <= j < k ==> TryBuildIconPath(fs, name, dirs[1..][j], forceSvg).None?
    ensures r.None? <==> forall k :: 0 <= k < |dirs| ==> TryBuildIconPath(fs, name, dirs[k], forceSvg).None?
    ensures r.Some? ==> exists k :: 0 <= k < |dirs| && r == TryBuildIconPath(fs, name, dirs[k], forceSvg)
                          && forall j :: 0 <= j < k ==> TryBuildIconPath(fs, name, dirs[j], forceSvg).None?
  {
    if r.Some? {
      var k :| 0 <= k < |dirs[1..]| && r == TryBuildIconPath(fs, name, dirs[1..][k], forceSvg)
               && forall j :: 0 <= j < k ==> TryBuildIconPath(fs, name, dirs[1..][j], forceSvg).None?;
      assert dirs[k + 1] == dirs[1..][k];
      forall j | 0 <= j < k + 1 ensures TryBuildIconPath(fs, name, dirs[j], forceSvg).None? {
        if j > 0 { assert dirs[j] == dirs[1..][j - 1]; }
      }
    } else {
      forall k | 0 <= k < |dirs| ensures TryBuildIconPath(fs, name, dirs[k], forceSvg).None? {
        if k > 0 { assert dirs[k] == dirs[1..][k - 1]; }
      }
    }
  }
}
