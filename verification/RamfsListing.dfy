/** The listing of a directory: `open_dir` joins the directory's path and the entries' names without a
    separator. */
module RamfsListing {
  import opened Pages
  import opened Paths
  import opened Ramfs
  import opened RamfsLookup
  import opened RamfsEdits
  import opened RamfsRuns
  import opened RamfsTheorems

  datatype DirEntry = DirEntry(path: string, fileType: FileType)

  function KindOf(item: Item): FileType {
    if item.DirRef? then Directory else File
  }

  /** `open_dir` */
  function ListDir(fs: Fs, p: string): Result<seq<DirEntry>> {
    match OpenDir(fs, p)
    case Panic => Panic
    case Err(e) => Err(e)
    case Ok(d) => Ok(Listing(fs, p, Entries(fs, d)))
  }

  function Listing(fs: Fs, p: string, items: seq<Item>): seq<DirEntry> {
    seq(|items|, i requires 0 <= i < |items| => DirEntry(p + Name(fs, items[i]), KindOf(items[i])))
  }

  // ----- names have no slash -----

  ghost predicate NamesPlain(fs: Fs) {
    && (forall d | d in fs.dirs && d != ROOT :: NoSlash(fs.dirs[d].name))
    && (forall f | f in fs.files :: NoSlash(fs.files[f].name))
  }

  lemma FilenameHasNoSlash(p: string)
    ensures Filename(p).Some? ==> NoSlash(Filename(p).value)
  {
    hide Parent, Filename;
    NoParentIff(p);
    if '/' in p {
      var front, name := LastSlash(p);
      AroundLastSlash(p, front, name);
    }
  }

  lemma ApplyKeepsNamesPlain(fs: Fs, call: Call)
    requires Wf(fs) && NamesPlain(fs)
    ensures NamesPlain(Apply(fs, call))
  {
    hide Parent, Filename, SplitDir, RelativeDir, Without, NoSlash;
    if !call.CallWrite? {
      FilenameHasNoSlash(call.path);
    }
  }

  lemma {:induction false} EveryRunNamesPlain(calls: seq<Call>)
    ensures NamesPlain(After(calls))
  {
    if calls != [] {
      hide Wf, NamesPlain, Apply;
      EveryRunIsWf(calls[..|calls| - 1]);
      EveryRunNamesPlain(calls[..|calls| - 1]);
      ApplyKeepsNamesPlain(After(calls[..|calls| - 1]), calls[|calls| - 1]);
    }
  }

  // ----- the paths listed -----

  /** The path of the entry called `name` in directory `p`. */
  function EntryPath(p: string, name: string): string {
    if p == "/" then "/" + name else p + "/" + name
  }

  lemma EntryName(fs: Fs, d: Id, i: nat)
    requires Wf(fs) && NamesPlain(fs) && d in fs.dirs && i < |fs.dirs[d].entries|
    ensures NoSlash(Name(fs, fs.dirs[d].entries[i]))
  {
    assert ItemOk(fs, d, fs.dirs[d].entries[i]);
  }

  /** What is called like an entry of the directory found under `p` exists under the entry's path, and that is
      the entry itself if it is the first of its name. */
  lemma EntryPathLeads(fs: Fs, p: string, d: Id, name: string)
    requires Regular(p) && OpenDir(fs, p) == Ok(d) && NoSlash(name) && (p == "/" ==> name != "")
    ensures TypeOf(fs, EntryPath(p, name)) == FoundType(FirstNamed(fs, Entries(fs, d), name))
  {
    hide Absolute, TypeOf, Names, OpenDir, Plain, Front, Last, Join;
    RegularParts(p);
    Resolution(fs, p);
    PathOfEntry(p, name);
    TypeByComponents(fs, Names(p), name);
  }

  lemma PathOfEntry(p: string, name: string)
    requires Regular(p) && NoSlash(name) && (p == "/" ==> name != "")
    ensures Plain(Names(p) + [name]) && EntryPath(p, name) == Absolute(Names(p) + [name])
  {
    hide Names, Front, Last, Join, NoSlash;
    RegularParts(p);
    var cs := Names(p);
    assert forall i | 0 <= i < |cs + [name]| :: (cs + [name])[i] == if i < |cs| then cs[i] else name;
    if p == "/" {
      assert cs + [name] == [name];
      JoinUnfolds([name]);
    } else {
      JoinAppend(cs, name);
    }
  }

  /** A listing has one item for each entry, in order and with its kind; its paths are those of the entries if
      and only if the directory is the root or has no entries. */
  lemma ListingRightIff(fs: Fs, p: string, d: Id)
    requires OpenDir(fs, p) == Ok(d)
    ensures ListDir(fs, p).Ok? && |ListDir(fs, p).value| == |Entries(fs, d)|
    ensures forall i | 0 <= i < |Entries(fs, d)| :: ListDir(fs, p).value[i].fileType == KindOf(Entries(fs, d)[i])
    ensures (forall i | 0 <= i < |Entries(fs, d)| ::
               ListDir(fs, p).value[i].path == EntryPath(p, Name(fs, Entries(fs, d)[i])))
            <==> p == "/" || Entries(fs, d) == []
  {
    hide OpenDir, Entries, Name;
    var items := Entries(fs, d);
    if p != "/" && items != [] {
      var name := Name(fs, items[0]);
      assert |p + name| != |EntryPath(p, name)|;
      assert ListDir(fs, p).value[0].path == p + name;
    }
  }

  /** So what the listing of the root names is there, after any sequence of calls. */
  lemma RootListingExists(calls: seq<Call>, i: nat)
    requires i < |Entries(After(calls), ROOT)|
    ensures ListDir(After(calls), "/").Ok? && i < |ListDir(After(calls), "/").value|
    ensures Exists(After(calls), ListDir(After(calls), "/").value[i].path)
  {
    var fs := After(calls);
    hide After, TypeOf, Wf, NamesPlain;
    EveryRunIsWf(calls);
    EveryRunNamesPlain(calls);
    RootExists(fs);
    RootOpens(fs);
    ListingRightIff(fs, "/", ROOT);
    EntryName(fs, ROOT, i);
    var item := Entries(fs, ROOT)[i];
    if Name(fs, item) == "" {
      assert EntryPath("/", "") == "/";
    } else {
      EntryPathLeads(fs, "/", ROOT, Name(fs, item));
      NamedIsFound(fs, Entries(fs, ROOT), item);
    }
  }

  lemma {:induction false} NamedIsFound(fs: Fs, items: seq<Item>, item: Item)
    requires item in items
    ensures FirstNamed(fs, items, Name(fs, item)).Some?
  {
    if items[0] != item {
      assert items == [items[0]] + items[1..];
      NamedIsFound(fs, items[1..], item);
    }
  }

  /** Below the root it need not be: in `/a` the file `b` is listed as `/ab`, which does not exist. */
  lemma ListedPathMissing()
    ensures var fs := After([CallCreateDir("/a"), CallCreateFile("/a/b")]);
            && ListDir(fs, "/a") == Ok([DirEntry("/ab", File)])
            && !Exists(fs, "/ab") && Exists(fs, "/a/b")
  {
    hide OpenDir, TypeOf, Absolute, After;
    var fs := TwoCalls();
    SmallPaths();
    InsideA(fs);
    Resolution(fs, "/a");
    TypeByComponents(fs, [], "ab");
    TypeByComponents(fs, ["a"], "b");
    assert Entries(fs, 1) == [FileRef(2)] && Name(fs, FileRef(2)) == "b" && "/a" + "b" == "/ab";
    assert Listing(fs, "/a", [FileRef(2)]) == [DirEntry("/ab", File)];
    NamedIsFound(fs, [FileRef(2)], FileRef(2));
  }

  /** The file system those two calls make. */
  lemma TwoCalls() returns (fs: Fs)
    ensures fs == After([CallCreateDir("/a"), CallCreateFile("/a/b")])
    ensures ROOT in fs.dirs && 1 in fs.dirs && 2 in fs.files
    ensures fs.dirs[ROOT].entries == [DirRef(1)] && fs.dirs[1] == Dir("a", [FileRef(2)], ROOT)
    ensures fs.files[2].name == "b"
  {
    hide CreateFile, CreateDir, Absolute;
    var fs1 := AddDir(NewFs(), ROOT, "a");
    fs := AddFile(fs1, 1, "b");
    var first, calls := [CallCreateDir("/a")], [CallCreateDir("/a"), CallCreateFile("/a/b")];
    assert first[..0] == [] && calls[..1] == first;
    SmallPaths();
    CreateByComponents(NewFs(), [], "a");
    assert After(first) == fs1;
    InsideA(fs1);
    CreateByComponents(fs1, ["a"], "b");
    assert After(calls) == fs;
  }

  lemma SmallPaths()
    ensures Absolute(["a"]) == "/a" && Absolute(["ab"]) == "/ab" && Absolute(["a", "b"]) == "/a/b"
    ensures [] + ["a"] == ["a"] && [] + ["ab"] == ["ab"] && ["a"] + ["b"] == ["a", "b"]
    ensures Plain(["a"]) && Plain(["ab"]) && Plain(["a", "b"]) && Regular("/a") && Names("/a") == ["a"]
  {
    assert Join(["b"]) == "b" && ["a", "b"][1..] == ["b"];
    NamesOfAbsolute(["a"]);
  }

  lemma InsideA(fs: Fs)
    requires ROOT in fs.dirs && 1 in fs.dirs && fs.dirs[ROOT].entries == [DirRef(1)] && fs.dirs[1].name == "a"
    ensures Reach(fs, ROOT, ["a"]) == Some(1)
    ensures ItemAt(fs, ROOT, [], "ab") == None
  {
    var items := Entries(fs, ROOT);
    assert ["a"][1..] == [] && items[1..] == [] && |"ab"| == 2;
    assert Name(fs, items[0]) != "ab";
    assert FirstNamed(fs, items, "ab") == FirstNamed(fs, [], "ab");
  }
}
