/** Paths that start with a double slash: the two ways of resolving a path disagree on them, unless a
    third slash follows. */
module DoubleSlashes {
  import opened Pages
  import opened Paths
  import opened Ramfs
  import opened RamfsLookup
  import opened RamfsEdits
  import opened RamfsRuns
  import opened RamfsTheorems

  predicate TripleSlash(p: string) {
    "///" <= p
  }

  // ----- the operations on //cs/name -----

  function Doubled(cs: seq<string>, name: string): string {
    "//" + Join(cs + [name])
  }

  lemma DoubledParent(cs: seq<string>, name: string)
    requires AllNoSlash(cs) && NoSlash(name)
    ensures Parent(Doubled(cs, name)) == Some(if cs == [] then "/" else "//" + Join(cs))
    ensures Filename(Doubled(cs, name)) == Some(name)
  {
    var p := Doubled(cs, name);
    hide Parent, Filename, Join, NoSlash;
    if cs == [] {
      assert cs + [name] == [name];
      JoinUnfolds([name]);
      AroundLastSlash(p, "/", name);
    } else {
      JoinAppend(cs, name);
      AroundLastSlash(p, "//" + Join(cs), name);
    }
  }

  /** The second slash is dropped as well. */
  lemma DoubledDir(fs: Fs, cs: seq<string>)
    requires |cs| >= 1 && AllNoSlash(cs)
    ensures RelativeDir(fs, "//" + Join(cs)) ==
            match Reach(fs, ROOT, cs) case None => Err(PathDoesNotExist) case Some(d) => Ok(d)
  {
    var p := "//" + Join(cs);
    assert p[1..] == "/" + Join(cs) && p[1..][1..] == Join(cs);
    FindDirReaches(fs, ROOT, cs);
  }

  /** Not so when a file is opened: an empty component is looked up first. */
  lemma DoubledFile(fs: Fs, cs: seq<string>, name: string)
    requires AllNoSlash(cs) && NoSlash(name)
    ensures OpenFile(fs, Doubled(cs, name)) == FoundFile(FileAt(fs, ROOT, [""] + cs, name))
  {
    var p, all := Doubled(cs, name), [""] + cs;
    assert p == "" + "/" + ("/" + Join(cs + [name]));
    SplitAt("", "/" + Join(cs + [name]));
    assert all + [name] == [""] + (cs + [name]);
    assert (all + [name])[1..] == cs + [name];
    assert Join(all + [name]) == "/" + Join(cs + [name]);
    FindFileFromBack(fs, ROOT, all, name);
  }

  lemma DoubledType(fs: Fs, cs: seq<string>, name: string)
    requires AllNoSlash(cs) && NoSlash(name)
    ensures TypeOf(fs, Doubled(cs, name)) == FoundType(ItemAt(fs, ROOT, cs, name))
  {
    hide Parent, Filename, Join, RelativeDir;
    DoubledParent(cs, name);
    RootDir(fs);
    if cs != [] {
      DoubledDir(fs, cs);
    }
  }

  lemma RootDir(fs: Fs)
    ensures RelativeDir(fs, "/") == Ok(ROOT)
  {
  }

  lemma DoubledOpensDir(fs: Fs, cs: seq<string>, name: string)
    requires AllNoSlash(cs) && NoSlash(name)
    ensures OpenDir(fs, Doubled(cs, name)) == FoundFile(Reach(fs, ROOT, cs + [name]))
  {
    var all := cs + [name];
    assert forall i | 0 <= i < |all| :: all[i] == if i < |cs| then cs[i] else name;
    DoubledDir(fs, all);
  }

  /** Deleting //cs/name removes what /cs/name leads to. */
  lemma DoubledDeleteByComponents(fs: Fs, cs: seq<string>, name: string)
    requires AllNoSlash(cs) && NoSlash(name)
    ensures Delete(fs, Doubled(cs, name)) == match Reach(fs, ROOT, cs)
              case None => Err(PathDoesNotExist)
              case Some(d) => Ok(SetEntries(fs, d, Without(fs, Entries(fs, d), name)))
  {
    hide Parent, Filename, Join, RelativeDir, Without;
    DoubledParent(cs, name);
    RootDir(fs);
    if cs != [] {
      DoubledDir(fs, cs);
    }
  }

  /** Creating //cs/name looks for //cs: at the root if `cs` is empty, otherwise inside a nameless directory. */
  lemma DoubledCreateByComponents(fs: Fs, cs: seq<string>, name: string)
    requires AllNoSlash(cs) && NoSlash(name)
    ensures CreateFile(fs, Doubled(cs, name)) == match DoubledPlace(fs, cs)
              case None => Err(DirectoryDoesNotExist)
              case Some(d) => Ok((AddFile(fs, d, name), fs.next))
    ensures CreateDir(fs, Doubled(cs, name)) == match DoubledPlace(fs, cs)
              case None => Err(DirectoryDoesNotExist)
              case Some(d) => Ok(AddDir(fs, d, name))
  {
    hide Parent, Filename, Join, SplitDir, AddFile, AddDir, Reach;
    DoubledParent(cs, name);
    RootSplitDir(fs);
    if cs != [] {
      DoubledSplitDir(fs, cs);
    }
  }

  function DoubledPlace(fs: Fs, cs: seq<string>): Option<Id> {
    if cs == [] then Some(ROOT) else Reach(fs, ROOT, [""] + cs)
  }

  /** Deleting drops both slashes: it removes what the path with one slash leads to. */
  lemma DoubledDelete(fs: Fs, p: string)
    requires Regular(p) && p != "/"
    ensures Delete(fs, "/" + p) == Delete(fs, p)
  {
    hide Parent, Filename, RelativeDir, Doubled, Reach, Without, Names, Join, Front, Last, Components;
    RegularParts(p);
    var cs, name := Front(p), Last(p);
    AddedSlash(p, cs, name);
    DoubledDeleteByComponents(fs, cs, name);
    ParentAndFilename(cs, name);
    PlainParts(cs, name);
    DirOfPath(fs, cs);
  }

  lemma AddedSlash(p: string, cs: seq<string>, name: string)
    requires Plain(cs + [name]) && p == Absolute(cs + [name])
    ensures "/" + p == Doubled(cs, name) && AllNoSlash(cs) && NoSlash(name)
  {
    assert forall i | 0 <= i < |cs| :: (cs + [name])[i] == cs[i];
    assert (cs + [name])[|cs|] == name;
  }

  lemma RootSplitDir(fs: Fs)
    ensures SplitDir(fs, "/") == Ok(ROOT)
  {
  }

  lemma DoubledSplitDir(fs: Fs, cs: seq<string>)
    requires |cs| >= 1 && AllNoSlash(cs)
    ensures SplitDir(fs, "//" + Join(cs)) ==
            match Reach(fs, ROOT, [""] + cs) case None => Err(DirectoryDoesNotExist) case Some(d) => Ok(d)
  {
    var p := "//" + Join(cs);
    assert p == "" + "/" + ("/" + Join(cs));
    SplitAt("", "/" + Join(cs));
    assert ([""] + cs)[1..] == cs;
    assert Join([""] + cs) == "/" + Join(cs);
    FindDirReaches(fs, ROOT, [""] + cs);
  }

  // ----- three slashes: nothing is ever there -----

  /** No directory called "" directly below the root has an entry. */
  ghost predicate NothingBelowNameless(fs: Fs) {
    forall d | d in fs.dirs && d != ROOT && fs.dirs[d].parent == ROOT && fs.dirs[d].name == "" ::
      fs.dirs[d].entries == []
  }

  /** The directories that operations find for a new entry are never nameless ones below the root. */
  lemma NewEntriesElsewhere(fs: Fs, p: string)
    requires Wf(fs) && HasRoot(p) && SplitDir(fs, p).Ok?
    ensures var d := SplitDir(fs, p).value;
            d in fs.dirs && !(d != ROOT && fs.dirs[d].parent == ROOT && fs.dirs[d].name == "")
  {
    hide Wf, FindDir;
    DirExists(fs, p);
    if p != "/" {
      var rest := p[1..];
      assert p == "" + "/" + rest;
      SplitAt("", rest);
      JoinOfComponents(rest);
      var cs := Components(rest);
      FindDirReaches(fs, ROOT, cs);
      NamelessPath(fs, cs);
      assert Join([""]) == "";
    }
  }

  /** A nameless directory below the root is reached by the single component "" only. */
  lemma NamelessPath(fs: Fs, cs: seq<string>)
    requires Wf(fs) && |cs| >= 1 && Reach(fs, ROOT, cs).Some?
    ensures var d := Reach(fs, ROOT, cs).value;
            d in fs.dirs && (d != ROOT && fs.dirs[d].parent == ROOT && fs.dirs[d].name == "" ==> cs == [""])
  {
    var front, name := cs[..|cs| - 1], cs[|cs| - 1];
    assert cs == front + [name];
    ReachedFromParent(fs, front, name);
    var d := Reach(fs, ROOT, cs).value;
    if fs.dirs[d].parent == ROOT {
      OnlyPath(fs, front, []);
    }
  }

  lemma CreateKeepsNameless(fs: Fs, p: string)
    requires Wf(fs) && NothingBelowNameless(fs)
    ensures CreateFile(fs, p).Ok? ==> NothingBelowNameless(CreateFile(fs, p).value.0)
    ensures CreateDir(fs, p).Ok? ==> NothingBelowNameless(CreateDir(fs, p).value)
  {
    hide SplitDir, Parent, Filename;
    if HasRoot(p) {
      ParentIsAbsolute(p);
      if SplitDir(fs, Parent(p).value).Ok? {
        NewEntriesElsewhere(fs, Parent(p).value);
      }
    }
  }

  lemma DeleteKeepsNameless(fs: Fs, p: string)
    requires NothingBelowNameless(fs) && Delete(fs, p).Ok?
    ensures NothingBelowNameless(Delete(fs, p).value)
  {
    hide RelativeDir, Parent, Filename;
    if !IsRoot(p) {
      var d := RelativeDir(fs, Parent(p).value).value;
      if Entries(fs, d) == [] {
        assert Without(fs, Entries(fs, d), Filename(p).value) == [];
      }
    }
  }

  lemma ApplyKeepsNameless(fs: Fs, call: Call)
    requires Wf(fs) && NothingBelowNameless(fs)
    ensures NothingBelowNameless(Apply(fs, call))
  {
    hide Wf, CreateFile, CreateDir, Delete;
    match call
    case CallCreateFile(p) => CreateKeepsNameless(fs, p);
    case CallCreateDir(p) => CreateKeepsNameless(fs, p);
    case CallDelete(p) => if Delete(fs, p).Ok? { DeleteKeepsNameless(fs, p); }
    case CallWrite(_, _) =>
  }

  /** Whatever is called, no directory called "" directly below the root ever gets an entry. */
  lemma {:induction false} EveryRunLeavesNameless(calls: seq<Call>)
    ensures NothingBelowNameless(After(calls))
  {
    if calls != [] {
      hide NothingBelowNameless, Wf, Apply;
      EveryRunIsWf(calls[..|calls| - 1]);
      EveryRunLeavesNameless(calls[..|calls| - 1]);
      ApplyKeepsNameless(After(calls[..|calls| - 1]), calls[|calls| - 1]);
    }
  }

  /** So no path that goes through such a directory resolves. */
  lemma NothingThroughNameless(fs: Fs, cs: seq<string>, name: string)
    requires Wf(fs) && NothingBelowNameless(fs) && |cs| >= 1 && cs[0] == ""
    ensures NothingAt(fs, cs, name)
  {
    assert cs == [""] + cs[1..];
    ReachAppend(fs, ROOT, [""], cs[1..]);
    if Reach(fs, ROOT, [""]).Some? {
      assert [] + [""] == [""];
      ReachedFromParent(fs, [], "");
    }
    ReachLast(fs, ROOT, cs, name);
  }

  /** Creating drops both slashes only directly below the root; further down it finds no directory. */
  lemma DoubledCreate(fs: Fs, p: string)
    requires Wf(fs) && NothingBelowNameless(fs) && Regular(p) && p != "/"
    ensures CreateFile(fs, "/" + p) == if |Names(p)| == 1 then CreateFile(fs, p) else Err(DirectoryDoesNotExist)
    ensures CreateDir(fs, "/" + p) == if |Names(p)| == 1 then CreateDir(fs, p) else Err(DirectoryDoesNotExist)
  {
    hide Doubled, AddFile, AddDir, Wf, NothingBelowNameless, CreateFile, CreateDir, Absolute;
    hide Names, Front, Last;
    RegularParts(p);
    var cs, name := Front(p), Last(p);
    AddedSlash(p, cs, name);
    DoubledCreateByComponents(fs, cs, name);
    CreateByComponents(fs, cs, name);
    if cs != [] {
      NothingInNameless(fs, cs);
    }
  }

  lemma NothingInNameless(fs: Fs, cs: seq<string>)
    requires Wf(fs) && NothingBelowNameless(fs) && cs != []
    ensures Reach(fs, ROOT, [""] + cs) == None
  {
    hide Wf, NothingBelowNameless, Reach;
    var front, last := LastOff(cs);
    assert ([""] + front) + [last] == [""] + cs;
    NothingThroughNameless(fs, [""] + front, last);
  }

  /** With three slashes in front nothing can be created, and deleting changes nothing. */
  lemma TripleSlashEdits(fs: Fs, p: string)
    requires Wf(fs) && NothingBelowNameless(fs) && TripleSlash(p)
    ensures CreateFile(fs, p) == Err(DirectoryDoesNotExist) && CreateDir(fs, p) == Err(DirectoryDoesNotExist)
    ensures Delete(fs, p) == Err(PathDoesNotExist) || Delete(fs, p) == Ok(fs)
  {
    hide Doubled, Wf, NothingBelowNameless, CreateFile, CreateDir, Delete, Reach, AddFile, AddDir;
    var cs, name := SplitDoubled(p);
    ThirdSlash(p, cs, name);
    DoubledCreateByComponents(fs, cs, name);
    DoubledDeleteByComponents(fs, cs, name);
    NothingInNameless(fs, cs);
    if Reach(fs, ROOT, cs).Some? {
      NamelessIsEmpty(fs, cs);
    }
  }

  /** The only such directory that can be there is empty, so taking an entry out of it changes nothing. */
  lemma NamelessIsEmpty(fs: Fs, cs: seq<string>)
    requires Wf(fs) && NothingBelowNameless(fs) && cs != [] && cs[0] == "" && Reach(fs, ROOT, cs).Some?
    ensures var d := Reach(fs, ROOT, cs).value;
            Entries(fs, d) == [] && forall name :: SetEntries(fs, d, Without(fs, Entries(fs, d), name)) == fs
  {
    if |cs| > 1 {
      assert [""] + cs[1..] == cs;
      NothingInNameless(fs, cs[1..]);
      assert false;
    }
    assert cs == [""] && [] + [""] == [""];
    ReachedFromParent(fs, [], "");
    var d := Reach(fs, ROOT, cs).value;
    assert fs.dirs[d].entries == [];
    assert fs.dirs[d := fs.dirs[d].(entries := [])] == fs.dirs;
  }

  /** A path with three slashes in front never exists and never opens. */
  lemma TripleSlashNeverThere(fs: Fs, p: string)
    requires Wf(fs) && NothingBelowNameless(fs) && TripleSlash(p)
    ensures !Exists(fs, p) && !OpenFile(fs, p).Ok? && !OpenDir(fs, p).Ok?
  {
    hide Doubled, Join, Reach, Wf, NothingBelowNameless, TypeOf, OpenFile, OpenDir, FileAt, ItemAt;
    var cs, name := SplitDoubled(p);
    ThirdSlash(p, cs, name);
    NothingThroughNameless(fs, cs, name);
    NothingThroughNameless(fs, [""] + cs, name);
    DoubledType(fs, cs, name);
    DoubledFile(fs, cs, name);
    DoubledOpensDir(fs, cs, name);
  }

  // ----- exactly two slashes -----

  lemma SplitDoubled(p: string) returns (cs: seq<string>, name: string)
    requires DoubleSlash(p)
    ensures AllNoSlash(cs) && NoSlash(name) && p == Doubled(cs, name)
  {
    var rest := p[2..];
    assert p == "//" + rest;
    JoinOfComponents(rest);
    var all := Components(rest);
    cs, name := all[..|all| - 1], all[|all| - 1];
    assert all == cs + [name];
  }

  /** The third slash is that of an empty first component. */
  lemma ThirdSlash(p: string, cs: seq<string>, name: string)
    requires AllNoSlash(cs) && NoSlash(name) && p == Doubled(cs, name)
    ensures TripleSlash(p) <==> cs != [] && cs[0] == ""
  {
    var all := cs + [name];
    assert p[2..] == Join(all);
    if cs == [] {
      assert Join(all) == name;
    } else {
      assert all[0] == cs[0];
      assert Join(all) == cs[0] + ("/" + Join(all[1..]));
      assert Join(all)[|cs[0]|] == '/';
      assert cs[0] != "" ==> Join(all)[0] == cs[0][0];
    }
    assert TripleSlash(p) <==> |p| > 2 && p[2] == '/';
  }

  /** The calls that create the directories `cs` one in the other. */
  function Trail(cs: seq<string>): seq<Call> {
    if cs == [] then [] else Trail(cs[..|cs| - 1]) + [CallCreateDir(Absolute(cs))]
  }

  /** The directory that `cs` leads to is there and empty, and the root has no nameless directory. */
  ghost predicate EmptyAt(fs: Fs, cs: seq<string>) {
    && Wf(fs) && Reach(fs, ROOT, cs).Some? && Reach(fs, ROOT, [""]) == None
    && forall x :: NothingAt(fs, cs, x)
  }

  lemma NewIsEmpty()
    ensures EmptyAt(NewFs(), [])
  {
    var fs := NewFs();
    forall x
      ensures NothingAt(fs, [], x)
    {
      NothingInEmptyRoot(fs, [], x);
    }
    assert NothingAt(fs, [], "");
    assert [] + [""] == [""];
  }

  lemma DirAdded(fs: Fs, front: seq<string>, name: string)
    requires EmptyAt(fs, front) && Plain(front + [name])
    ensures EmptyAt(AddDir(fs, Reach(fs, ROOT, front).value, name), front + [name])
  {
    hide Wf, Reach, FileAt, ItemAt, Created, AddDir;
    var d := Reach(fs, ROOT, front).value;
    var fs', cs := AddDir(fs, d, name), front + [name];
    AddDirCreates(fs, front, name);
    ReachedExists(fs, front);
    AddDirKeepsWf(fs, d, name);
    assert NothingAt(fs, front, name);
    CreateFootprint(fs, front, name, DirRef(fs.next), fs', front, name);
    CreateFootprint(fs, front, name, DirRef(fs.next), fs', [], "");
    assert [] + [""] == [""];
    forall x
      ensures NothingAt(fs', cs, x)
    {
      NothingBelowMissing(fs, cs, x);
      CreateFootprint(fs, front, name, DirRef(fs.next), fs', cs, x);
    }
  }

  lemma NothingBelowMissing(fs: Fs, cs: seq<string>, x: string)
    requires Reach(fs, ROOT, cs) == None
    ensures NothingAt(fs, cs, x)
  {
    ReachLast(fs, ROOT, cs, x);
  }

  lemma {:induction false} TrailIsEmpty(cs: seq<string>)
    requires Plain(cs)
    ensures EmptyAt(After(Trail(cs)), cs)
  {
    hide EmptyAt, Absolute, AddDir;
    if cs == [] {
      NewIsEmpty();
    } else {
      var front, name := cs[..|cs| - 1], cs[|cs| - 1];
      assert cs == front + [name];
      PlainParts(front, name);
      TrailIsEmpty(front);
      EmptyIsReached(After(Trail(front)), front);
      CreateByComponents(After(Trail(front)), front, name);
      DirAdded(After(Trail(front)), front, name);
      assert Trail(cs)[..|Trail(cs)| - 1] == Trail(front);
    }
  }

  lemma EmptyIsReached(fs: Fs, cs: seq<string>)
    requires EmptyAt(fs, cs)
    ensures Reach(fs, ROOT, cs).Some?
  {
  }

  /** A call that creates the file //cs/name would lead to if one slash were dropped. */
  function LastCall(cs: seq<string>, name: string): Call {
    CallCreateFile(if cs == [] then Doubled(cs, name) else Absolute(cs + [name]))
  }

  lemma LastCallAdds(fs: Fs, cs: seq<string>, name: string)
    requires AllNoSlash(cs) && NoSlash(name) && (cs != [] ==> cs[0] != "") && Reach(fs, ROOT, cs).Some?
    ensures Apply(fs, LastCall(cs, name)) == AddFile(fs, Reach(fs, ROOT, cs).value, name)
  {
    hide Absolute, Parent, Filename, AddFile, SplitDir, Join;
    if cs == [] {
      DoubledParent(cs, name);
      RootSplitDir(fs);
      assert HasRoot(Doubled(cs, name));
    } else {
      assert forall i | 0 <= i < |cs + [name]| :: (cs + [name])[i] == if i < |cs| then cs[i] else name;
      CreateByComponents(fs, cs, name);
    }
  }

  /** With that file the path exists but opens neither as a file nor as a directory. */
  lemma FileAddedDisagrees(fs: Fs, cs: seq<string>, name: string)
    requires AllNoSlash(cs) && NoSlash(name) && EmptyAt(fs, cs)
    ensures var fs', p := AddFile(fs, Reach(fs, ROOT, cs).value, name), Doubled(cs, name);
            Exists(fs', p) && !OpenFile(fs', p).Ok? && !OpenDir(fs', p).Ok?
  {
    hide Wf, Reach, Created, AddFile, Doubled, TypeOf, OpenFile, OpenDir, FirstNamed;
    var fs', item := AddFile(fs, Reach(fs, ROOT, cs).value, name), FileRef(fs.next);
    AddFileCreates(fs, cs, name);
    assert NothingAt(fs, cs, name);
    CreateFootprint(fs, cs, name, item, fs', cs, name);
    CreateFootprint(fs, cs, name, item, fs', [], "");
    assert [] + [""] == [""];
    ReachAppend(fs', ROOT, [""], cs);
    DoubledType(fs', cs, name);
    DoubledFile(fs', cs, name);
    DoubledOpensDir(fs', cs, name);
  }

  /** For every path with exactly two slashes in front, a few calls lead to a file system in which it
      exists but opens neither way. */
  lemma DoubledDisagrees(p: string) returns (calls: seq<Call>)
    requires DoubleSlash(p) && !TripleSlash(p)
    ensures Exists(After(calls), p) && !OpenFile(After(calls), p).Ok? && !OpenDir(After(calls), p).Ok?
  {
    hide EmptyAt, Reach, AddFile, LastCall, TypeOf, OpenFile, OpenDir, Absolute, Doubled;
    var cs, name := SplitDoubled(p);
    ThirdSlash(p, cs, name);
    TrailIsEmpty(cs);
    var fs := After(Trail(cs));
    EmptyIsReached(fs, cs);
    LastCallAdds(fs, cs, name);
    FileAddedDisagrees(fs, cs, name);
    calls := Trail(cs) + [LastCall(cs, name)];
    assert calls[..|calls| - 1] == Trail(cs);
  }

  /** A path opens as a file or directory exactly when it exists, after every sequence of calls, if and
      only if it does not start with exactly two slashes. */
  lemma OpensIffExistsIff(p: string)
    ensures (forall calls :: OpensIffExists(After(calls), p)) <==> !DoubleSlash(p) || TripleSlash(p)
  {
    if DoubleSlash(p) && !TripleSlash(p) {
      var calls := DoubledDisagrees(p);
      assert !OpensIffExists(After(calls), p);
    } else {
      forall calls
        ensures OpensIffExists(After(calls), p)
      {
        if TripleSlash(p) {
          EveryRunIsWf(calls);
          EveryRunLeavesNameless(calls);
          TripleSlashNeverThere(After(calls), p);
        } else {
          AllButDoubleSlashOpen(After(calls), p);
        }
      }
    }
  }
}
