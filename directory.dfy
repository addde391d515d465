/** The served directory: `Directory::new`, the per-request listing of the
    regular files directly inside the root (`list_available_resources`) and
    the path of a name under the root (`full_path`). The file system is
    replaced by the entries `fs::read_dir` would return. */
module Directory {
  import opened Seqs
  import opened Bytes

  /** What `DirEntry::file_type` reports; it does not follow symbolic links. */
  datatype FileKind = RegularFile | Dir | Symlink | OtherKind

  /** One entry of the root directory: its file name, its type and the length
      in its metadata. */
  datatype DirEntry = DirEntry(name: string, kind: FileKind, size: u64)

  datatype FileMeta = FileMeta(name: string, size: u64)

  /** A `PathBuf` seen as its components; `absolute` records a leading `/`. */
  datatype Path = Path(absolute: bool, parts: seq<string>)

  const EmptyPath: Path := Path(false, [])

  /** The non-empty pieces of `parts` (repeated and trailing `/` add no component). */
  function NonEmpty(parts: seq<string>): (r: seq<string>)
    ensures forall i :: 0 <= i < |r| ==> r[i] != []
  {
    if parts == [] then []
    else if parts[0] == [] then NonEmpty(parts[1..])
    else [parts[0]] + NonEmpty(parts[1..])
  }

  /** The path a string denotes on a Unix system. */
  function ParsePath(s: string): Path
  {
    Path(|s| > 0 && s[0] == '/', NonEmpty(Split(s, '/')))
  }

  /** `PathBuf::push`: an absolute path replaces what is there, a relative one
      is appended component by component. */
  function Push(p: Path, q: Path): Path
  {
    if q.absolute then q else Path(p.absolute, p.parts + q.parts)
  }

  /** The value `full_path(name)` builds. */
  function Joined(root: Path, name: string): (p: Path)
    ensures name == [] || name[0] != '/' ==> p == Path(root.absolute, root.parts + ParsePath(name).parts)
    ensures |name| > 0 && name[0] == '/' ==> p == ParsePath(name)
  {
    Push(Push(EmptyPath, root), ParsePath(name))
  }

  /** A plain file name (no `/`, not empty) adds exactly one component. */
  lemma JoinedFileName(root: Path, name: string)
    requires name != [] && '/' !in name
    ensures Joined(root, name) == Path(root.absolute, root.parts + [name])
  {
    SplitWithoutSeparator(name, '/');
    assert NonEmpty([name]) == [name];
  }

  /** `"/" + name` for a plain name is the absolute path with that one
      component. */
  lemma ParseRootedName(name: string)
    requires name != [] && '/' !in name
    ensures ParsePath("/" + name) == Path(true, [name])
  {
    var s := "/" + name;
    assert s[1..] == name;
    SplitWithoutSeparator(name, '/');
    assert Split(s, '/') == [[]] + Split(s[1..], '/');
    assert NonEmpty([[], name]) == NonEmpty([name]);
    assert NonEmpty([name]) == [name];
  }

  /** Specification of `list_available_resources`: the entries are inserted
      in order, so a later entry with the same name overwrites an earlier one. */
  function Listing(entries: seq<DirEntry>): map<string, FileMeta>
  {
    if entries == [] then map[]
    else
      var m := Listing(entries[..|entries| - 1]);
      var e := entries[|entries| - 1];
      if e.kind == RegularFile then m["/" + e.name := FileMeta(e.name, e.size)] else m
  }

  /** `entries[i]` is a regular file and no later regular file has its name:
      the entry whose metadata the listing keeps. */
  predicate LastFileEntry(entries: seq<DirEntry>, i: int)
  {
    && 0 <= i < |entries| && entries[i].kind == RegularFile
    && forall j :: i < j < |entries| && entries[j].kind == RegularFile ==> entries[j].name != entries[i].name
  }

  /** The keys are exactly `"/" + name` of the regular-file entries;
      directories, symbolic links and other types never appear. */
  lemma {:induction false} ListingKeys(entries: seq<DirEntry>, k: string)
    ensures k in Listing(entries) <==>
              exists i :: 0 <= i < |entries| && entries[i].kind == RegularFile && k == "/" + entries[i].name
    decreases |entries|
  {
    if entries != [] {
      var init := entries[..|entries| - 1];
      ListingKeys(init, k);
      if exists i :: 0 <= i < |entries| && entries[i].kind == RegularFile && k == "/" + entries[i].name {
        var i :| 0 <= i < |entries| && entries[i].kind == RegularFile && k == "/" + entries[i].name;
        if i < |init| {
          assert init[i] == entries[i];
        }
      }
    }
  }

  /** Each key is a `/` followed by the `name` of its value. */
  lemma {:induction false} ListingNames(entries: seq<DirEntry>, k: string)
    requires k in Listing(entries)
    ensures |k| >= 1 && k[0] == '/' && k[1..] == Listing(entries)[k].name
    decreases |entries|
  {
    var init := entries[..|entries| - 1];
    var e := entries[|entries| - 1];
    if !(e.kind == RegularFile && k == "/" + e.name) {
      ListingNames(init, k);
    }
  }

  /** The value under `"/" + name` is the name and metadata length of the last
      regular-file entry of that name. */
  lemma {:induction false} ListingValue(entries: seq<DirEntry>, i: nat)
    requires LastFileEntry(entries, i)
    ensures "/" + entries[i].name in Listing(entries)
    ensures Listing(entries)["/" + entries[i].name] == FileMeta(entries[i].name, entries[i].size)
    decreases |entries|
  {
    var init := entries[..|entries| - 1];
    var e := entries[|entries| - 1];
    if i < |init| {
      assert init[i] == entries[i];
      assert LastFileEntry(init, i);
      ListingValue(init, i);
      if e.kind == RegularFile {
        assert e.name != entries[i].name;
        assert ("/" + e.name)[1..] == e.name;
      }
    }
  }

  /** Every key comes from one entry, so there are at most as many as entries. */
  lemma {:induction false} ListingSize(entries: seq<DirEntry>)
    ensures |Listing(entries)| <= |entries|
    decreases |entries|
  {
    if entries != [] {
      ListingSize(entries[..|entries| - 1]);
    }
  }

  /** `Directory { root }`; nothing is cached, the listing is rebuilt per call. */
  datatype Directory = Directory(root: Path)
  {
    /** `Directory::new` keeps the root it is given. */
    static function New(root: Path): (d: Directory)
      ensures d.root == root
    {
      Directory(root)
    }

    /** `list_available_resources`: the loop over the entries of the root,
        inserting every regular file under `"/" + name`. */
    method ListAvailableResources(entries: seq<DirEntry>) returns (files: map<string, FileMeta>)
      ensures files == Listing(entries)
    {
      files := map[];
      for i := 0 to |entries|
        invariant files == Listing(entries[..i])
      {
        var p := entries[i];
        assert entries[..i + 1][..i] == entries[..i];
        if p.kind == RegularFile {
          files := files["/" + p.name := FileMeta(p.name, p.size)];
        }
      }
      assert entries[..|entries|] == entries;
    }

    /** `full_path`: push the root onto an empty path, then the name. The
        file need not exist. */
    method FullPath(name: string) returns (path: Path)
      ensures path == Joined(root, name)
    {
      path := EmptyPath;
      path := Push(path, root);
      path := Push(path, ParsePath(name));
    }
  }
}
