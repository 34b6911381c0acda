/** World files of `core/src/game_paths.rs`: a world named `n` is stored as
    `<worlds>/<n>` with its extension set to `ron`, and listing the worlds
    directory keeps the regular `.ron` files, by file stem.

    A path is modelled by what the standard library's `Path` compares:
    whether it is absolute and its components after the root.  Empty
    components and every `.` component are dropped when a path is parsed;
    `..` components are kept. */
module GamePaths {
  import opened Maybe

  const WORLD_EXTENSION: string := "ron"

  /** A component of a parsed path: non-empty, no separator, not `.`. */
  predicate Part(seg: string)
  {
    seg != "" && seg != "." && '/' !in seg
  }

  datatype Path = Path(absolute: bool, parts: seq<string>)

  predicate WellFormed(p: Path)
  {
    forall i :: 0 <= i < |p.parts| ==> Part(p.parts[i])
  }

  /** The segment collected so far, kept unless it is empty or `.`. */
  function Keep(seg: string): (r: seq<string>)
    requires '/' !in seg
    ensures |r| <= 1 && (|r| == 1 <==> Part(seg)) && (|r| == 1 ==> r[0] == seg)
  {
    if seg == "" || seg == "." then [] else [seg]
  }

  /** The components of `s`, `cur` being the part of the current segment
      already read. */
  function SegmentsFrom(s: string, cur: string): (r: seq<string>)
    requires '/' !in cur
    ensures forall i :: 0 <= i < |r| ==> Part(r[i])
    decreases |s|
  {
    if |s| == 0 then Keep(cur)
    else if s[0] == '/' then Keep(cur) + SegmentsFrom(s[1..], "")
    else SegmentsFrom(s[1..], cur + [s[0]])
  }

  /** Parsing a path string. */
  function Parse(s: string): (p: Path)
    ensures WellFormed(p)
    ensures p.absolute <==> |s| > 0 && s[0] == '/'
  {
    Path(|s| > 0 && s[0] == '/', SegmentsFrom(s, ""))
  }

  function JoinParts(parts: seq<string>): string
  {
    if |parts| == 0 then ""
    else if |parts| == 1 then parts[0]
    else parts[0] + "/" + JoinParts(parts[1..])
  }

  /** The canonical text of a path. */
  function Render(p: Path): string
  {
    (if p.absolute then "/" else "") + JoinParts(p.parts)
  }

  /** Reading a separator-free text just extends the current segment. */
  lemma {:induction false} SegmentsOfPlain(s: string, cur: string)
    requires '/' !in cur && '/' !in s
    ensures SegmentsFrom(s, cur) == Keep(cur + s)
    decreases |s|
  {
    if |s| == 0 {
      assert cur + s == cur;
    } else {
      assert s[0] != '/' && '/' !in s[1..];
      SegmentsOfPlain(s[1..], cur + [s[0]]);
      assert cur + [s[0]] + s[1..] == cur + s;
    }
  }

  /** Reading a separator-free segment followed by more text. */
  lemma {:induction false} SegmentsOfPrefix(seg: string, rest: string, cur: string)
    requires '/' !in cur && '/' !in seg
    ensures SegmentsFrom(seg + rest, cur) == SegmentsFrom(rest, cur + seg)
    decreases |seg|
  {
    if |seg| == 0 {
      assert seg + rest == rest && cur + seg == cur;
    } else {
      assert (seg + rest)[0] == seg[0] != '/';
      assert (seg + rest)[1..] == seg[1..] + rest;
      SegmentsOfPrefix(seg[1..], rest, cur + [seg[0]]);
      assert cur + [seg[0]] + seg[1..] == cur + seg;
    }
  }

  lemma {:induction false} SegmentsOfJoinParts(parts: seq<string>)
    requires forall i :: 0 <= i < |parts| ==> Part(parts[i])
    ensures SegmentsFrom(JoinParts(parts), "") == parts
    decreases |parts|
  {
    if |parts| == 1 {
      SegmentsOfPlain(parts[0], "");
      assert "" + parts[0] == parts[0];
    } else if |parts| > 1 {
      var rest := JoinParts(parts[1..]);
      assert parts[0] + "/" + rest == parts[0] + ("/" + rest);
      SegmentsOfPrefix(parts[0], "/" + rest, "");
      assert "" + parts[0] == parts[0];
      assert ("/" + rest)[1..] == rest;
      SegmentsOfJoinParts(parts[1..]);
      assert parts == [parts[0]] + parts[1..];
    }
  }

  /** Parsing a rendered path gives the path back. */
  lemma {:induction false} ParseRender(p: Path)
    requires WellFormed(p)
    ensures Parse(Render(p)) == p
  {
    SegmentsOfJoinParts(p.parts);
    if p.absolute {
      assert ("/" + JoinParts(p.parts))[1..] == JoinParts(p.parts);
    } else if |p.parts| > 0 {
      assert "" + JoinParts(p.parts) == JoinParts(p.parts);
      assert JoinParts(p.parts)[0] == p.parts[0][0];
    }
  }

  /** `PathBuf::push` of a string: an absolute path replaces, a relative
      one is appended. */
  function Join(dir: Path, name: string): (r: Path)
    ensures WellFormed(dir) ==> WellFormed(r)
    ensures |name| > 0 && name[0] == '/' ==> r == Parse(name)
    ensures !(|name| > 0 && name[0] == '/') ==> r.absolute == dir.absolute && r.parts == dir.parts + Parse(name).parts
  {
    var p := Parse(name);
    if p.absolute then p else Path(dir.absolute, dir.parts + p.parts)
  }

  /** `Path::file_name`: the last component, unless it is `..` or missing. */
  function FileName(p: Path): (r: Option<string>)
    ensures r.Some? <==> |p.parts| > 0 && p.parts[|p.parts| - 1] != ".."
    ensures r.Some? ==> r.value == p.parts[|p.parts| - 1]
  {
    if |p.parts| == 0 || p.parts[|p.parts| - 1] == ".." then None
    else Some(p.parts[|p.parts| - 1])
  }

  /** The position of the last `.` in `s`, if any. */
  function LastDot(s: string): (r: Option<nat>)
    ensures r.Some? ==> r.value < |s| && s[r.value] == '.' && '.' !in s[r.value + 1..]
    ensures r.None? <==> '.' !in s
  {
    if |s| == 0 then None
    else if s[|s| - 1] == '.' then Some(|s| - 1)
    else
      var r := LastDot(s[..|s| - 1]);
      assert s == s[..|s| - 1] + [s[|s| - 1]];
      if r.Some? then assert s[r.value + 1..] == s[..|s| - 1][r.value + 1..] + [s[|s| - 1]]; r
      else r
  }

  /** The last dot of `s + "." + t` is the one added, when `t` has none. */
  lemma {:induction false} LastDotOfAppend(s: string, t: string)
    requires '.' !in t
    ensures LastDot(s + "." + t) == Some(|s|)
    decreases |t|
  {
    var u := s + "." + t;
    if |t| == 0 {
      assert u[|u| - 1] == '.';
    } else {
      assert u[|u| - 1] == t[|t| - 1] != '.';
      assert u[..|u| - 1] == s + "." + t[..|t| - 1];
      LastDotOfAppend(s, t[..|t| - 1]);
    }
  }

  /** The standard library's split of a file name at its last dot into
      stem and extension: `..` and names whose only dot is the leading one
      have no extension. */
  function SplitAtDot(file: string): (r: (string, Option<string>))
    ensures r.1.Some? ==> file == r.0 + "." + r.1.value && '.' !in r.1.value && |r.0| > 0
    ensures r.1.None? ==> r.0 == file
    ensures |file| > 0 ==> |r.0| > 0
  {
    if file == ".." then (file, None)
    else match LastDot(file)
      case None => (file, None)
      case Some(i) =>
        if i == 0 then (file, None)
        else
          assert file == file[..i] + "." + file[i + 1..];
          (file[..i], Some(file[i + 1..]))
  }

  /** `Path::file_stem` and `Path::extension`. */
  function FileStem(p: Path): Option<string>
  {
    match FileName(p) case None => None case Some(f) => Some(SplitAtDot(f).0)
  }

  function Extension(p: Path): Option<string>
  {
    match FileName(p) case None => None case Some(f) => SplitAtDot(f).1
  }

  /** `PathBuf::set_extension`: without a file name nothing changes;
      otherwise the file name becomes its stem, a dot and `ext`. */
  function SetExtension(p: Path, ext: string): (r: Path)
    requires ext != ""
    ensures FileName(p).None? ==> r == p
    ensures FileName(p).Some? ==>
              && r.absolute == p.absolute && |r.parts| == |p.parts|
              && r.parts[..|p.parts| - 1] == p.parts[..|p.parts| - 1]
              && r.parts[|p.parts| - 1] == FileStem(p).value + "." + ext
  {
    match FileStem(p)
    case None => p
    case Some(stem) => Path(p.absolute, p.parts[..|p.parts| - 1] + [stem + "." + ext])
  }

  /** `GamePaths::world_path`. */
  function WorldPath(worlds: Path, name: string): (r: Path)
    ensures FileName(Join(worlds, name)).None? ==> r == Join(worlds, name)
    ensures WellFormed(worlds) && FileName(Join(worlds, name)).Some? ==>
              && FileName(r) == Some(FileStem(Join(worlds, name)).value + "." + WORLD_EXTENSION)
              && Extension(r) == Some(WORLD_EXTENSION)
  {
    var p := Join(worlds, name);
    var r := SetExtension(p, WORLD_EXTENSION);
    if WellFormed(worlds) && FileName(p).Some? then SplitWorldFile(FileStem(p).value); r else r
  }

  /** A plain name: one component, not `..`. */
  predicate PlainName(name: string)
  {
    Part(name) && name != ".."
  }

  /** A stem with the world extension added splits back into the two. */
  lemma SplitWorldFile(stem: string)
    requires |stem| > 0
    ensures SplitAtDot(stem + "." + WORLD_EXTENSION) == (stem, Some(WORLD_EXTENSION))
  {
    var file := stem + "." + WORLD_EXTENSION;
    LastDotOfAppend(stem, WORLD_EXTENSION);
    assert file != "..";
    assert file[..|stem|] == stem && file[|stem| + 1..] == WORLD_EXTENSION;
  }

  /** A plain name joins as one more component. */
  lemma JoinPlain(worlds: Path, name: string)
    requires PlainName(name)
    ensures Join(worlds, name) == Path(worlds.absolute, worlds.parts + [name])
  {
    SegmentsOfPlain(name, "");
    assert "" + name == name;
  }

  /** The world file of a plain name sits directly in the worlds directory,
      has extension `ron`, and is named by the name's stem. */
  lemma {:induction false} PlainWorldPath(worlds: Path, name: string)
    requires PlainName(name)
    ensures var r := WorldPath(worlds, name);
            && r.absolute == worlds.absolute
            && r.parts == worlds.parts + [SplitAtDot(name).0 + "." + WORLD_EXTENSION]
            && Extension(r) == Some(WORLD_EXTENSION)
            && FileStem(r) == Some(SplitAtDot(name).0)
  {
    JoinPlain(worlds, name);
    var stem := SplitAtDot(name).0;
    SplitWorldFile(stem);
    var r := WorldPath(worlds, name);
    assert r.parts == worlds.parts + [stem + "." + WORLD_EXTENSION];
    assert FileName(r) == Some(stem + "." + WORLD_EXTENSION);
  }

  /** Whatever the name, a world path that has a file name at all has
      extension `ron`. */
  lemma {:induction false} WorldPathHasExtension(worlds: Path, name: string)
    requires WellFormed(worlds)
    requires FileName(Join(worlds, name)).Some?
    ensures Extension(WorldPath(worlds, name)) == Some(WORLD_EXTENSION)
  {
    var stem := FileStem(Join(worlds, name)).value;
    SplitWorldFile(stem);
    assert FileName(WorldPath(worlds, name)) == Some(stem + "." + WORLD_EXTENSION);
  }

  datatype FileType = File | Dir | Symlink

  /** A directory entry: its file type (`None` when it cannot be read) and
      its file name, a single component. */
  datatype DirEntry = DirEntry(fileType: Option<FileType>, name: string)

  /** `world_name`: the stem of a regular file whose extension is `ron`. */
  function WorldName(worlds: Path, entry: DirEntry): (r: Option<string>)
    ensures entry.fileType != Some(File) ==> r.None?
    ensures r.Some? <==> entry.fileType == Some(File) && Extension(Join(worlds, entry.name)) == Some(WORLD_EXTENSION)
    ensures r.Some? ==> r == FileStem(Join(worlds, entry.name))
  {
    if entry.fileType != Some(File) then None
    else
      var path := Join(worlds, entry.name);
      if Extension(path) != Some(WORLD_EXTENSION) then None
      else FileStem(path)
  }

  /** Listing the worlds directory: the directory may be unreadable, and so
      may each entry. */
  datatype IoError = IoError
  datatype ListError = UnreadableDir(dir: Path, cause: IoError)

  /** The world name an entry contributes, if it is readable and a world. */
  function Listed(worlds: Path, entry: Result<DirEntry, IoError>): (names: seq<string>)
    ensures |names| <= 1
  {
    match entry
    case Err(_) => []
    case Ok(e) => match WorldName(worlds, e) case None => [] case Some(n) => [n]
  }

  /** The names of the listed entries that are worlds, in listing order. */
  function Collect(worlds: Path, entries: seq<Result<DirEntry, IoError>>): (names: seq<string>)
    ensures |names| <= |entries|
    decreases |entries|
  {
    if |entries| == 0 then [] else Listed(worlds, entries[0]) + Collect(worlds, entries[1..])
  }

  /** `GamePaths::world_names`. */
  function WorldNames(worlds: Path, listing: Result<seq<Result<DirEntry, IoError>>, IoError>): (r: Result<seq<string>, ListError>)
    ensures listing.Err? <==> r.Err?
    ensures listing.Err? ==> r.error == UnreadableDir(worlds, listing.error)
    ensures listing.Ok? ==> r == Ok(Collect(worlds, listing.value))
  {
    match listing
    case Err(e) => Err(UnreadableDir(worlds, e))
    case Ok(entries) => Ok(Collect(worlds, entries))
  }

  /** Collecting distributes over concatenation, so the names come in the
      order of the entries. */
  lemma {:induction false} CollectAppend(worlds: Path, a: seq<Result<DirEntry, IoError>>, b: seq<Result<DirEntry, IoError>>)
    ensures Collect(worlds, a + b) == Collect(worlds, a) + Collect(worlds, b)
    decreases |a|
  {
    if |a| == 0 {
      assert a + b == b;
    } else {
      assert (a + b)[0] == a[0];
      assert (a + b)[1..] == a[1..] + b;
      CollectAppend(worlds, a[1..], b);
    }
  }

  /** A name is listed exactly when some readable entry is a world of that
      name. */
  lemma {:induction false} CollectMembership(worlds: Path, entries: seq<Result<DirEntry, IoError>>, n: string)
    ensures n in Collect(worlds, entries)
            <==> exists i :: 0 <= i < |entries| && entries[i].Ok? && WorldName(worlds, entries[i].value) == Some(n)
    decreases |entries|
  {
    if |entries| > 0 {
      CollectMembership(worlds, entries[1..], n);
      if n in Collect(worlds, entries[1..]) {
        var i :| 0 <= i < |entries[1..]| && entries[1..][i].Ok? && WorldName(worlds, entries[1..][i].value) == Some(n);
        assert entries[i + 1] == entries[1..][i];
      }
      if exists i :: 0 <= i < |entries| && entries[i].Ok? && WorldName(worlds, entries[i].value) == Some(n) {
        var i :| 0 <= i < |entries| && entries[i].Ok? && WorldName(worlds, entries[i].value) == Some(n);
        if i > 0 {
          assert entries[1..][i - 1] == entries[i];
        }
      }
    }
  }

  /** A world saved under a plain name is listed under that name's stem. */
  lemma {:induction false} SavedWorldIsListed(worlds: Path, name: string)
    requires PlainName(name)
    ensures var file := SplitAtDot(name).0 + "." + WORLD_EXTENSION;
            && WorldPath(worlds, name).parts == worlds.parts + [file]
            && WorldName(worlds, DirEntry(Some(File), file)) == Some(SplitAtDot(name).0)
  {
    PlainWorldPath(worlds, name);
    var stem := SplitAtDot(name).0;
    StemIsPlain(name);
    var file := stem + "." + WORLD_EXTENSION;
    WorldFileIsPlain(stem);
    JoinPlain(worlds, file);
    SplitWorldFile(stem);
    assert FileName(Join(worlds, file)) == Some(file);
  }

  /** The world file of a non-empty, separator-free stem is a plain name. */
  lemma WorldFileIsPlain(stem: string)
    requires |stem| > 0 && '/' !in stem
    ensures PlainName(stem + "." + WORLD_EXTENSION)
  {
    var file := stem + "." + WORLD_EXTENSION;
    assert '/' !in file;
    assert |file| > 2;
  }

  /** A plain name's stem is non-empty and has no separator. */
  lemma StemIsPlain(name: string)
    requires PlainName(name)
    ensures |SplitAtDot(name).0| > 0 && '/' !in SplitAtDot(name).0
  {
    var (stem, ext) := SplitAtDot(name);
    if ext.Some? {
      assert name == stem + ("." + ext.value);
      assert stem == name[..|stem|];
    }
  }

  /** The stem is the whole name exactly when the name has no dot after its
      first character; `my.world` is saved as `my.ron` and listed as `my`. */
  lemma {:induction false} StemKeepsUndottedName(name: string)
    requires PlainName(name)
    ensures SplitAtDot(name).0 == name <==> forall i | 0 < i < |name| :: name[i] != '.'
  {
    if i :| 0 < i < |name| && name[i] == '.' {
      var j := LastDot(name);
      assert j.Some?;
      assert |SplitAtDot(name).0| == j.value < |name|;
    } else {
      var j := LastDot(name);
      assert j.None? || j.value == 0;
    }
  }
}
