/** Resolving a path component by component, from the front and from the back. */
module RamfsLookup {
  import opened Pages
  import opened Paths
  import opened Ramfs

  /** The directory reached from `d` by descending through the given components. */
  function Reach(fs: Fs, d: Id, cs: seq<string>): Option<Id>
    decreases |cs|
  {
    if cs == [] then Some(d)
    else match FirstDir(fs, Entries(fs, d), cs[0])
      case None => None
      case Some(sub) => Reach(fs, sub, cs[1..])
  }

  /** The first file called `name` in the directory that `cs` leads to. */
  function FileAt(fs: Fs, d: Id, cs: seq<string>, name: string): Option<Id> {
    match Reach(fs, d, cs)
    case None => None
    case Some(e) => FirstFile(fs, Entries(fs, e), name)
  }

  /** The first entry called `name` in the directory that `cs` leads to. */
  function ItemAt(fs: Fs, d: Id, cs: seq<string>, name: string): Option<Item> {
    match Reach(fs, d, cs)
    case None => None
    case Some(e) => FirstNamed(fs, Entries(fs, e), name)
  }

  /** Looking up p/q is looking up q inside p. */
  lemma {:induction false} ReachAppend(fs: Fs, d: Id, p: seq<string>, q: seq<string>)
    ensures Reach(fs, d, p + q) == match Reach(fs, d, p) case None => None case Some(e) => Reach(fs, e, q)
    decreases |p|
  {
    if p == [] {
      assert p + q == q;
    } else {
      assert (p + q)[1..] == p[1..] + q;
      match FirstDir(fs, Entries(fs, d), p[0])
      case None =>
      case Some(sub) => ReachAppend(fs, sub, p[1..], q);
    }
  }

  lemma ReachLast(fs: Fs, d: Id, cs: seq<string>, name: string)
    ensures Reach(fs, d, cs + [name]) ==
            match Reach(fs, d, cs) case None => None case Some(e) => FirstDir(fs, Entries(fs, e), name)
  {
    ReachAppend(fs, d, cs, [name]);
    match Reach(fs, d, cs)
    case None =>
    case Some(e) =>
      assert forall sub: Id :: Reach(fs, sub, [name][1..]) == Some(sub);
  }

  /** `find_dir` descends through the components of its path. */
  lemma {:induction false} FindDirReaches(fs: Fs, d: Id, cs: seq<string>)
    requires |cs| >= 1 && AllNoSlash(cs)
    ensures FindDir(fs, d, Join(cs)) == Reach(fs, d, cs)
    decreases |cs|
  {
    if |cs| == 1 {
      NothingToSplit(cs[0]);
      assert forall sub: Id :: Reach(fs, sub, cs[1..]) == Some(sub);
    } else {
      SplitAt(cs[0], Join(cs[1..]));
      match FirstDir(fs, Entries(fs, d), cs[0])
      case None =>
      case Some(sub) => FindDirReaches(fs, sub, cs[1..]);
    }
  }

  /** `find_file`, which splits from the front, finds the first file of that name in the directory the
      other components lead to. */
  lemma {:induction false} FindFileFromBack(fs: Fs, d: Id, cs: seq<string>, name: string)
    requires AllNoSlash(cs) && NoSlash(name)
    ensures FindFile(fs, d, Join(cs + [name])) == FileAt(fs, d, cs, name)
    decreases |cs|
  {
    var all := cs + [name];
    if cs == [] {
      NothingToSplit(name);
    } else {
      assert all[1..] == cs[1..] + [name];
      SplitAt(cs[0], Join(all[1..]));
      match FirstDir(fs, Entries(fs, d), cs[0])
      case None =>
      case Some(sub) => FindFileFromBack(fs, sub, cs[1..], name);
    }
  }

  // ----- the operations by components -----

  lemma PlainParts(cs: seq<string>, name: string)
    requires Plain(cs + [name])
    ensures Plain(cs) && NoSlash(name)
    ensures cs + [name] == [(cs + [name])[0]] + (cs + [name])[1..]
  {
    var all := cs + [name];
    assert NoSlash(all[|cs|]);
    assert forall i | 0 <= i < |cs| :: cs[i] == all[i];
  }

  /** Both ways of finding a parent directory descend through its components. */
  lemma DirOfPath(fs: Fs, cs: seq<string>)
    requires Plain(cs)
    ensures RelativeDir(fs, Absolute(cs)) ==
            match Reach(fs, ROOT, cs) case None => Err(PathDoesNotExist) case Some(d) => Ok(d)
    ensures SplitDir(fs, Absolute(cs)) ==
            match Reach(fs, ROOT, cs) case None => Err(DirectoryDoesNotExist) case Some(d) => Ok(d)
  {
    NamesOfAbsolute(cs);
    if cs != [] {
      assert cs == [cs[0]] + cs[1..];
      SplitsFromTop(cs[0], cs[1..]);
      FindDirReaches(fs, ROOT, cs);
    }
  }

  lemma OpenFileByComponents(fs: Fs, cs: seq<string>, name: string)
    requires Plain(cs + [name])
    ensures OpenFile(fs, Absolute(cs + [name])) ==
            match FileAt(fs, ROOT, cs, name) case None => Err(PathDoesNotExist) case Some(f) => Ok(f)
  {
    hide Absolute, Join, SplitFromTop, FindFile, FileAt;
    var all := cs + [name];
    PlainParts(cs, name);
    NamesOfAbsolute(all);
    SplitsFromTop(all[0], all[1..]);
    FindFileFromBack(fs, ROOT, cs, name);
  }

  lemma TypeByComponents(fs: Fs, cs: seq<string>, name: string)
    requires Plain(cs + [name])
    ensures TypeOf(fs, Absolute(cs + [name])) ==
            match ItemAt(fs, ROOT, cs, name)
            case None => Err(PathDoesNotExist)
            case Some(item) => Ok(if item.DirRef? then Directory else File)
  {
    hide Absolute, Parent, Filename, RelativeDir, SplitDir;
    NamesOfAbsolute(cs + [name]);
    ParentAndFilename(cs, name);
    DirOfPath(fs, cs);
  }

  lemma {:induction false} NamedIsDirOrFile(fs: Fs, items: seq<Item>, name: string)
    ensures FirstNamed(fs, items, name).Some? <==>
            FirstDir(fs, items, name).Some? || FirstFile(fs, items, name).Some?
    ensures FirstNamed(fs, items, name).Some? ==>
              match FirstNamed(fs, items, name).value
              case DirRef(d) => FirstDir(fs, items, name) == Some(d)
              case FileRef(f) => FirstFile(fs, items, name) == Some(f)
  {
    if items != [] {
      NamedIsDirOrFile(fs, items[1..], name);
    }
  }

  // ----- exists -----

  /** A path exists exactly when it opens as a file or as a directory. */
  ghost predicate OpensIffExists(fs: Fs, p: string) {
    Exists(fs, p) <==> OpenFile(fs, p).Ok? || OpenDir(fs, p).Ok?
  }

  lemma PlainOpensIffExists(fs: Fs, cs: seq<string>)
    requires Plain(cs)
    ensures OpensIffExists(fs, Absolute(cs))
  {
    hide Absolute, Parent, Filename, OpenFile, RelativeDir, SplitDir, TypeOf;
    NamesOfAbsolute(cs);
    DirOfPath(fs, cs);
    if cs == [] {
      RootOpens(fs);
    } else {
      var front, name := cs[..|cs| - 1], cs[|cs| - 1];
      assert cs == front + [name];
      OpenFileByComponents(fs, front, name);
      TypeByComponents(fs, front, name);
      ReachLast(fs, ROOT, front, name);
      match Reach(fs, ROOT, front)
      case None =>
      case Some(d) => NamedIsDirOrFile(fs, Entries(fs, d), name);
    }
  }

  lemma RootOpens(fs: Fs)
    ensures TypeOf(fs, "/") == Ok(Directory) && OpenDir(fs, "/") == Ok(ROOT)
  {
  }

  lemma AllButDoubleSlashOpen(fs: Fs, p: string)
    requires !DoubleSlash(p)
    ensures OpensIffExists(fs, p)
  {
    if HasRoot(p) {
      PlainPath(p);
      PlainOpensIffExists(fs, Names(p));
    }
  }
}
