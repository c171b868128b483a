/** What the file system's operations guarantee, in terms of path strings. */
module RamfsTheorems {
  import opened Pages
  import opened Paths
  import opened Ramfs
  import opened RamfsLookup
  import opened RamfsEdits
  import opened RamfsRuns

  /** An absolute path that does not start with a double slash. */
  predicate Regular(p: string) {
    HasRoot(p) && !DoubleSlash(p)
  }

  /** Path `q` is `p` or lies below it. */
  predicate Within(p: string, q: string)
    requires HasRoot(p) && HasRoot(q)
  {
    Names(p) <= Names(q)
  }

  // ----- resolving -----

  function FoundFile(r: Option<Id>): Result<Id> {
    match r
    case None => Err(PathDoesNotExist)
    case Some(id) => Ok(id)
  }

  function FoundType(r: Option<Item>): Result<FileType> {
    match r
    case None => Err(PathDoesNotExist)
    case Some(item) => Ok(if item.DirRef? then Directory else File)
  }

  /** The last component and those before it; the root has the empty one last. */
  function Front(p: string): seq<string>
    requires HasRoot(p)
  {
    var cs := Names(p);
    if cs == [] then [] else cs[..|cs| - 1]
  }

  function Last(p: string): string
    requires HasRoot(p)
  {
    var cs := Names(p);
    if cs == [] then "" else cs[|cs| - 1]
  }

  lemma RegularParts(p: string)
    requires Regular(p)
    ensures p != "/" ==> Names(p) == Front(p) + [Last(p)]
    ensures p != "/" ==> Plain(Front(p) + [Last(p)]) && Absolute(Front(p) + [Last(p)]) == p
    ensures p == "/" ==> Front(p) == [] && Last(p) == "" && Names(p) == []
    ensures Names(p) != [""] && Plain(Names(p)) && Absolute(Names(p)) == p
  {
    PlainPath(p);
  }

  /** Every regular path, whichever way it is resolved. */
  lemma Resolution(fs: Fs, p: string)
    requires Regular(p)
    ensures OpenFile(fs, p) == FoundFile(FileAt(fs, ROOT, Front(p), Last(p)))
    ensures OpenDir(fs, p) == FoundFile(Reach(fs, ROOT, Names(p)))
    ensures p != "/" ==> TypeOf(fs, p) == FoundType(ItemAt(fs, ROOT, Front(p), Last(p)))
  {
    hide Absolute, Names, Join, OpenFile, TypeOf, RelativeDir, FileAt, ItemAt;
    RegularParts(p);
    DirOfPath(fs, Names(p));
    if p == "/" {
      RootFile(fs);
    } else {
      OpenFileByComponents(fs, Front(p), Last(p));
      TypeByComponents(fs, Front(p), Last(p));
    }
  }

  lemma RootFile(fs: Fs)
    ensures OpenFile(fs, "/") == FoundFile(FileAt(fs, ROOT, [], ""))
  {
    RootPath();
    NothingToSplit("");
  }

  // ----- which results are possible -----

  lemma {:induction false} ParentIsAbsolute(p: string)
    requires HasRoot(p)
    ensures Parent(p).Some? && HasRoot(Parent(p).value)
    ensures Parent(p).value == p <==> p == "/"
    ensures Filename(p).None? <==> p == "/"
  {
    hide Parent, Filename, Join, Components, NoSlash;
    var rest := p[1..];
    JoinOfComponents(rest);
    var front, name := LastOff(Components(rest));
    assert name == Components(rest)[|front|];
    if front == [] {
      assert front + [name] == [name];
      JoinUnfolds([name]);
      AroundLastSlash(p, "", name);
    } else {
      JoinAppend(front, name);
      AroundLastSlash(p, "/" + Join(front), name);
    }
  }

  /** Nothing ever panics but creating the root; and creating never reports that a path exists. */
  lemma PanicsExactlyOnRoot(fs: Fs, p: string)
    ensures CreateFile(fs, p).Panic? <==> p == "/"
    ensures CreateDir(fs, p).Panic? <==> p == "/"
    ensures !Delete(fs, p).Panic? && !TypeOf(fs, p).Panic? && !OpenDir(fs, p).Panic? && !OpenFile(fs, p).Panic?
    ensures CreateFile(fs, p) != Err(PathAlreadyExists) && CreateDir(fs, p) != Err(PathAlreadyExists)
  {
    if HasRoot(p) {
      ParentIsAbsolute(p);
      DirNeverPanics(fs, Parent(p).value);
      DirNeverPanics(fs, p);
    }
  }

  lemma DirNeverPanics(fs: Fs, p: string)
    requires HasRoot(p)
    ensures !RelativeDir(fs, p).Panic? && !SplitDir(fs, p).Panic?
    ensures RelativeDir(fs, p) != Err(PathAlreadyExists) && SplitDir(fs, p) != Err(PathAlreadyExists)
  {
    assert p == "" + "/" + p[1..];
    SplitAt("", p[1..]);
  }

  /** A path that does not start with a slash is refused by every operation. */
  lemma NotAbsolute(fs: Fs, p: string)
    requires p == "" || p[0] != '/'
    ensures TypeOf(fs, p) == Err(PathIsNotAbsolute)
    ensures OpenFile(fs, p) == OpenDir(fs, p) == Err(PathIsNotAbsolute)
    ensures CreateFile(fs, p) == Err(PathIsNotAbsolute)
    ensures CreateDir(fs, p) == Delete(fs, p) == Err(PathIsNotAbsolute)
  {
    assert !HasRoot(p);
  }

  /** No call with such a path changes anything. */
  lemma NotAbsoluteDoesNothing(fs: Fs, call: Call)
    requires !call.CallWrite? && (call.path == "" || call.path[0] != '/')
    ensures Apply(fs, call) == fs
  {
    NotAbsolute(fs, call.path);
  }

  // ----- delete -----

  lemma DeleteByComponents(fs: Fs, cs: seq<string>, name: string)
    requires Plain(cs + [name])
    ensures var r := Delete(fs, Absolute(cs + [name]));
            if Reach(fs, ROOT, cs).Some? then r.Ok? && Deleted(fs, cs, name, r.value)
            else r == Err(PathDoesNotExist)
  {
    hide Absolute, Parent, Filename, RelativeDir, SplitDir, Without;
    NamesOfAbsolute(cs + [name]);
    ParentAndFilename(cs, name);
    DirOfPath(fs, cs);
  }

  /** After deleting `p`, it and everything below it is gone, and every other path resolves as before. */
  lemma DeleteTheorem(fs: Fs, p: string, fs': Fs, q: string)
    requires Wf(fs) && Regular(p) && p != "/" && Delete(fs, p) == Ok(fs') && Regular(q)
    ensures if Within(p, q) then
              OpenFile(fs', q) == OpenDir(fs', q) == Err(PathDoesNotExist) && TypeOf(fs', q) == Err(PathDoesNotExist)
            else
              && OpenFile(fs', q) == OpenFile(fs, q) && OpenDir(fs', q) == OpenDir(fs, q)
              && TypeOf(fs', q) == TypeOf(fs, q)
  {
    hide Absolute, Names, OpenFile, OpenDir, Delete, Reach, FileAt, ItemAt, Deleted, Wf, Plain, Front, Last;
    RegularParts(p);
    RegularParts(q);
    DeleteByComponents(fs, Front(p), Last(p));
    Resolution(fs, q);
    Resolution(fs', q);
    DeleteFootprint(fs, Front(p), Last(p), fs', Front(q), Last(q));
    if q == "/" {
      SameLast(Front(p), Last(p), [], "");
      RootReached(fs, fs');
    }
  }

  lemma RootReached(fs: Fs, fs': Fs)
    ensures Reach(fs, ROOT, []) == Reach(fs', ROOT, []) && TypeOf(fs, "/") == TypeOf(fs', "/")
  {
  }

  /** Deleting the root empties it. */
  lemma DeleteRoot(fs: Fs, q: string)
    requires Wf(fs) && Regular(q)
    ensures var r := Delete(fs, "/");
            && r.Ok? && OpenFile(r.value, q) == Err(PathDoesNotExist) && OpenDir(r.value, "/") == Ok(ROOT)
            && (q != "/" ==> OpenDir(r.value, q) == Err(PathDoesNotExist))
            && (q != "/" ==> TypeOf(r.value, q) == Err(PathDoesNotExist))
  {
    hide Absolute, Names, OpenFile, TypeOf, Front, Last, OpenDir;
    var fs' := Delete(fs, "/").value;
    RegularParts(q);
    Resolution(fs', q);
    Resolution(fs', "/");
    NothingInEmptyRoot(fs', Front(q), Last(q));
    RegularParts("/");
  }

  lemma NothingInEmptyRoot(fs: Fs, cs: seq<string>, name: string)
    requires Entries(fs, ROOT) == []
    ensures NothingAt(fs, cs, name)
  {
    ReachLast(fs, ROOT, cs, name);
  }

  /** `delete` reports that a path does not exist only when its directory does not exist: it agrees with
      `exists` exactly when the path exists or its directory does not. */
  lemma DeleteReportsMissingIff(fs: Fs, p: string)
    requires Regular(p) && p != "/"
    ensures Parent(p).Some?
    ensures (Delete(fs, p) == Err(PathDoesNotExist) <==> !Exists(fs, p))
            <==> Exists(fs, p) || !OpenDir(fs, Parent(p).value).Ok?
  {
    hide Absolute, Names, TypeOf, Delete, Front, Last, OpenDir, Parent, Deleted;
    RegularParts(p);
    DeleteByComponents(fs, Front(p), Last(p));
    ParentAndFilename(Front(p), Last(p));
    NamesOfAbsolute(Front(p));
    Resolution(fs, Parent(p).value);
    Resolution(fs, p);
    if Delete(fs, p).Ok? {
      DeletedHadDir(fs, Front(p), Last(p), Delete(fs, p).value);
    }
  }

  lemma DeletedHadDir(fs: Fs, cs: seq<string>, name: string, fs': Fs)
    requires Deleted(fs, cs, name, fs')
    ensures Reach(fs, ROOT, cs).Some?
  {
  }

  /** In an empty file system deleting a missing file succeeds. */
  lemma DeleteMissingSucceeds()
    ensures Delete(NewFs(), "/a") == Ok(NewFs()) && !Exists(NewFs(), "/a")
  {
    var fs := NewFs();
    assert [] + ["a"] == ["a"] && Absolute(["a"]) == "/a";
    DeleteByComponents(fs, [], "a");
    TypeByComponents(fs, [], "a");
    assert SetEntries(fs, ROOT, []) == fs;
  }

  // ----- create -----

  lemma CreateByComponents(fs: Fs, cs: seq<string>, name: string)
    requires Plain(cs + [name])
    ensures CreateFile(fs, Absolute(cs + [name])) == match Reach(fs, ROOT, cs)
              case None => Err(DirectoryDoesNotExist)
              case Some(d) => Ok((AddFile(fs, d, name), fs.next))
    ensures CreateDir(fs, Absolute(cs + [name])) == match Reach(fs, ROOT, cs)
              case None => Err(DirectoryDoesNotExist)
              case Some(d) => Ok(AddDir(fs, d, name))
  {
    hide Absolute, Parent, Filename, RelativeDir, SplitDir, AddFile, AddDir;
    NamesOfAbsolute(cs + [name]);
    ParentAndFilename(cs, name);
    DirOfPath(fs, cs);
  }

  lemma SamePath(p: string, q: string)
    requires Regular(p) && Regular(q)
    ensures p == q <==> Names(p) == Names(q)
  {
    PlainPath(p);
    PlainPath(q);
  }

  /** Creating a file changes no directory lookup, keeps every file lookup that succeeded, and makes
      only its own path start to lead to the new file. */
  lemma CreateFileTheorem(fs: Fs, p: string, fs': Fs, f: Id, q: string)
    requires Wf(fs) && Regular(p) && p != "/" && CreateFile(fs, p) == Ok((fs', f)) && Regular(q)
    ensures OpenDir(fs', q) == OpenDir(fs, q)
    ensures OpenFile(fs', q) == if OpenFile(fs, q).Ok? || q != p then OpenFile(fs, q) else Ok(f)
    ensures TypeOf(fs', q) == if TypeOf(fs, q).Ok? || q != p then TypeOf(fs, q) else Ok(File)
    ensures f !in fs.files
  {
    hide Absolute, Names, OpenFile, TypeOf, OpenDir, CreateFile, Reach;
    hide FileAt, ItemAt, Created, AddFile, Plain, Front, Last;
    RegularParts(p);
    RegularParts(q);
    SamePath(p, q);
    var cs, name := Front(p), Last(p);
    CreateByComponents(fs, cs, name);
    AddFileCreates(fs, cs, name);
    Resolution(fs, q);
    Resolution(fs', q);
    CreateFootprint(fs, cs, name, FileRef(f), fs', Front(q), Last(q));
    SameLast(cs, name, Front(q), Last(q));
    if q == "/" {
      SameLast(cs, name, [], "");
      RootReached(fs, fs');
    }
  }

  /** Creating a directory changes no file lookup, keeps every directory lookup that succeeded, and
      makes only its own path start to lead to the new directory. */
  lemma CreateDirTheorem(fs: Fs, p: string, fs': Fs, q: string)
    requires Wf(fs) && Regular(p) && p != "/" && CreateDir(fs, p) == Ok(fs') && Regular(q)
    ensures OpenFile(fs', q) == OpenFile(fs, q)
    ensures OpenDir(fs', q) == if OpenDir(fs, q).Ok? || q != p then OpenDir(fs, q) else Ok(fs.next)
    ensures TypeOf(fs', q) == if TypeOf(fs, q).Ok? || q != p then TypeOf(fs, q) else Ok(Directory)
    ensures fs.next !in fs.dirs
  {
    hide Absolute, Names, OpenFile, TypeOf, OpenDir, CreateDir, Reach;
    hide FileAt, ItemAt, Created, AddDir, Plain, Front, Last;
    RegularParts(p);
    RegularParts(q);
    SamePath(p, q);
    var cs, name := Front(p), Last(p);
    CreateByComponents(fs, cs, name);
    AddDirCreates(fs, cs, name);
    Resolution(fs, q);
    Resolution(fs', q);
    CreateFootprint(fs, cs, name, DirRef(fs.next), fs', Front(q), Last(q));
    SameLast(cs, name, Front(q), Last(q));
    if q == "/" {
      SameLast(cs, name, [], "");
      RootReached(fs, fs');
    }
  }

  // ----- creating what is there already -----

  /** A path opens as what its type says. */
  lemma OpensAsTyped(fs: Fs, p: string)
    requires Regular(p)
    ensures TypeOf(fs, p) == Ok(File) ==> OpenFile(fs, p).Ok?
    ensures TypeOf(fs, p) == Ok(Directory) ==> OpenDir(fs, p).Ok?
  {
    hide Absolute, Names, OpenFile, OpenDir, TypeOf, Plain, Front, Last;
    RegularParts(p);
    Resolution(fs, p);
    if p == "/" {
      RootOpens(fs);
    } else {
      ReachLast(fs, ROOT, Front(p), Last(p));
      match Reach(fs, ROOT, Front(p))
      case None =>
      case Some(d) => NamedIsDirOrFile(fs, Entries(fs, d), Last(p));
    }
  }

  /** Creating a file succeeds whether or not the path is taken; the path then leads to the new file and
      says it is one exactly when it was not. */
  lemma CreateFileRightIff(fs: Fs, p: string, fs': Fs, f: Id)
    requires Wf(fs) && Regular(p) && p != "/" && CreateFile(fs, p) == Ok((fs', f))
    ensures OpenFile(fs', p) == Ok(f) && TypeOf(fs', p) == Ok(File) <==> !Exists(fs, p)
  {
    hide Wf, OpenFile, OpenDir, TypeOf, CreateFile;
    CreateFileTheorem(fs, p, fs', f, p);
    AllButDoubleSlashOpen(fs, p);
    OpensAsTyped(fs, p);
    OpensFiles(fs, p);
  }

  /** The same of a directory. */
  lemma CreateDirRightIff(fs: Fs, p: string, fs': Fs)
    requires Wf(fs) && Regular(p) && p != "/" && CreateDir(fs, p) == Ok(fs')
    ensures OpenDir(fs', p) == Ok(fs.next) && TypeOf(fs', p) == Ok(Directory) <==> !Exists(fs, p)
  {
    hide Wf, OpenFile, OpenDir, TypeOf, CreateDir;
    CreateDirTheorem(fs, p, fs', p);
    AllButDoubleSlashOpen(fs, p);
    OpensAsTyped(fs, p);
    OpensDirs(fs, p);
  }

  lemma OpensFiles(fs: Fs, p: string)
    requires Wf(fs) && Regular(p)
    ensures OpenFile(fs, p).Ok? ==> OpenFile(fs, p).value in fs.files
  {
    hide Wf, FindFile;
    if SplitFromTop(p).Some? {
      FoundFileExists(fs, SplitFromTop(p).value.1);
    }
  }

  lemma OpensDirs(fs: Fs, p: string)
    requires Wf(fs) && Regular(p)
    ensures OpenDir(fs, p).Ok? ==> OpenDir(fs, p).value in fs.dirs
  {
    hide Wf, RelativeDir;
    DirExists(fs, p);
  }

  /** In a new file system `/a` can be created again, as a file and as a directory. */
  lemma CreateTwice(fs: Fs, f: Id)
    requires CreateFile(NewFs(), "/a") == Ok((fs, f))
    ensures Exists(fs, "/a") && CreateFile(fs, "/a").Ok? && CreateDir(fs, "/a").Ok?
  {
    assert [] + ["a"] == ["a"] && Absolute(["a"]) == "/a";
    CreateByComponents(NewFs(), [], "a");
    CreateByComponents(fs, [], "a");
    TypeByComponents(fs, [], "a");
    assert Entries(fs, ROOT) == [FileRef(f)];
  }
}
