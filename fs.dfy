/** The filesystem as seen by the theme engine: a static snapshot that
    replaces every existence check, directory listing, directory walk and
    index-file parse the source performs. */
module Fs {

  datatype Option<T> = None | Some(value: T)

  /** Paths are plain strings with '/' as separator. */
  type Path = string

  /** `dir.join(component)` for a relative component. */
  function Join(dir: Path, component: string): Path
  {
    dir + "/" + component
  }

  /** An INI document: section name to (key to value). */
  type Ini = map<string, map<string, string>>

  /** `Ini::set_to(Some(section), key, value)` */
  function SetTo(ini: Ini, section: string, key: string, value: string): Ini
  {
    var old_section := if section in ini then ini[section] else map[];
    ini[section := old_section[key := value]]
  }

  /** `set_to` creates the section when it is missing, overwrites the key
      when it is present, and leaves every other key and section alone. */
  lemma SetToSpec(ini: Ini, section: string, key: string, value: string)
    ensures var r := SetTo(ini, section, key, value);
      && r.Keys == ini.Keys + {section}
      && r[section].Keys == (if section in ini then ini[section].Keys else {}) + {key}
      && r[section][key] == value
      && (forall k :: section in ini && k in ini[section] && k != key ==> r[section][k] == ini[section][k])
      && (forall s :: s in ini && s != section ==> r[s] == ini[s])
  {
  }

  /** A snapshot of the filesystem.
      - files, dirs: existing non-directory entries and directories
      - listings: `read_dir` of a directory, as entry names in listing order
        (entries whose read failed are already dropped); a path that is
        not a key cannot be read
      - walks: the entries `WalkDir::new(p)` yields (unlimited depth, errors
        dropped), the start path itself first when it exists
      - manifests: the index files that `Ini::load_from_file` parses, with
        their contents; an existing file that is not a key fails to parse */
  datatype FileSystem = FileSystem(
    files: set<Path>,
    dirs: set<Path>,
    listings: map<Path, seq<string>>,
    walks: map<Path, seq<Path>>,
    manifests: map<Path, Ini>)

  /** `Path::exists` */
  predicate Exists(fs: FileSystem, p: Path)
  {
    p in fs.files || p in fs.dirs
  }

  /** `Path::is_dir` */
  predicate IsDir(fs: FileSystem, p: Path)
  {
    p in fs.dirs
  }
}

