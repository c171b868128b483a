/** Every file system that any sequence of operations can produce is well formed, so the theorems
    about well-formed ones hold of all of them. */
module RamfsRuns {
  import opened Paths
  import opened Ramfs
  import opened RamfsLookup
  import opened RamfsEdits

  // ----- operations keep the invariant -----

  /** The directory found for any path string exists. */
  lemma FoundDirExists(fs: Fs, path: string)
    requires Wf(fs)
    ensures FindDir(fs, ROOT, path).Some? ==> FindDir(fs, ROOT, path).value in fs.dirs
  {
    JoinOfComponents(path);
    FindDirReaches(fs, ROOT, Components(path));
    if FindDir(fs, ROOT, path).Some? {
      ReachedExists(fs, Components(path));
    }
  }

  lemma {:induction false} FirstFileFound(fs: Fs, items: seq<Item>, name: string)
    ensures FirstFile(fs, items, name).Some? ==> FileRef(FirstFile(fs, items, name).value) in items
  {
    if items != [] {
      FirstFileFound(fs, items[1..], name);
      assert items == [items[0]] + items[1..];
    }
  }

  /** The file found for any path string exists. */
  lemma FoundFileExists(fs: Fs, path: string)
    requires Wf(fs)
    ensures FindFile(fs, ROOT, path).Some? ==> FindFile(fs, ROOT, path).value in fs.files
  {
    JoinOfComponents(path);
    var all := Components(path);
    var cs, name := all[..|all| - 1], all[|all| - 1];
    assert all == cs + [name];
    FindFileFromBack(fs, ROOT, cs, name);
    if FindFile(fs, ROOT, path).Some? {
      var d, f := Reach(fs, ROOT, cs).value, FindFile(fs, ROOT, path).value;
      FirstFileFound(fs, Entries(fs, d), name);
      var i :| 0 <= i < |Entries(fs, d)| && Entries(fs, d)[i] == FileRef(f);
      assert ItemOk(fs, d, fs.dirs[d].entries[i]);
    }
  }

  lemma DirExists(fs: Fs, p: string)
    requires Wf(fs)
    ensures RelativeDir(fs, p).Ok? ==> RelativeDir(fs, p).value in fs.dirs
    ensures SplitDir(fs, p).Ok? ==> SplitDir(fs, p).value in fs.dirs
  {
    hide Wf, FindDir;
    RootExists(fs);
    if RelativeTo(p, "/").Some? {
      FoundDirExists(fs, RelativeTo(p, "/").value);
    }
    if SplitFromTop(p).Some? {
      FoundDirExists(fs, SplitFromTop(p).value.1);
    }
  }

  lemma RootExists(fs: Fs)
    requires Wf(fs)
    ensures ROOT in fs.dirs
  {
  }

  lemma AddFileKeepsWf(fs: Fs, d: Id, name: string)
    requires Wf(fs) && d in fs.dirs
    ensures Wf(AddFile(fs, d, name))
  {
    var fs' := AddFile(fs, d, name);
    forall e, i | e in fs'.dirs && 0 <= i < |fs'.dirs[e].entries|
      ensures ItemOk(fs', e, fs'.dirs[e].entries[i])
    {
      if i < |fs.dirs[e].entries| {
        assert ItemOk(fs, e, fs.dirs[e].entries[i]);
      }
    }
  }

  lemma AddDirKeepsWf(fs: Fs, d: Id, name: string)
    requires Wf(fs) && d in fs.dirs
    ensures Wf(AddDir(fs, d, name))
  {
    var fs' := AddDir(fs, d, name);
    forall e, i | e in fs'.dirs && 0 <= i < |fs'.dirs[e].entries|
      ensures ItemOk(fs', e, fs'.dirs[e].entries[i])
    {
      if e in fs.dirs && i < |fs.dirs[e].entries| {
        assert ItemOk(fs, e, fs.dirs[e].entries[i]);
      }
    }
  }

  lemma {:induction false} WithoutSelects(fs: Fs, items: seq<Item>, name: string, item: Item)
    ensures item in Without(fs, items, name) <==> item in items && Name(fs, item) != name
  {
    if items != [] {
      WithoutSelects(fs, items[1..], name, item);
      assert items == [items[0]] + items[1..];
    }
  }

  lemma FewerEntriesKeepWf(fs: Fs, d: Id, items: seq<Item>)
    requires Wf(fs) && d in fs.dirs && forall item | item in items :: item in fs.dirs[d].entries
    ensures Wf(SetEntries(fs, d, items))
  {
    var fs' := SetEntries(fs, d, items);
    forall e, i | e in fs'.dirs && 0 <= i < |fs'.dirs[e].entries|
      ensures ItemOk(fs', e, fs'.dirs[e].entries[i])
    {
      var item := fs'.dirs[e].entries[i];
      assert item in fs.dirs[e].entries;
      var j :| 0 <= j < |fs.dirs[e].entries| && fs.dirs[e].entries[j] == item;
      assert ItemOk(fs, e, fs.dirs[e].entries[j]);
    }
  }

  lemma WithoutKeepsWf(fs: Fs, d: Id, name: string)
    requires Wf(fs) && d in fs.dirs
    ensures Wf(SetEntries(fs, d, Without(fs, Entries(fs, d), name)))
  {
    forall item | item in Without(fs, Entries(fs, d), name)
      ensures item in fs.dirs[d].entries
    {
      WithoutSelects(fs, Entries(fs, d), name, item);
    }
    FewerEntriesKeepWf(fs, d, Without(fs, Entries(fs, d), name));
  }

  lemma CreateFileKeepsWf(fs: Fs, p: string)
    requires Wf(fs) && CreateFile(fs, p).Ok?
    ensures Wf(CreateFile(fs, p).value.0)
  {
    hide Wf, AddFile, SplitDir;
    DirExists(fs, Parent(p).value);
    AddFileKeepsWf(fs, SplitDir(fs, Parent(p).value).value, Filename(p).value);
  }

  lemma CreateDirKeepsWf(fs: Fs, p: string)
    requires Wf(fs) && CreateDir(fs, p).Ok?
    ensures Wf(CreateDir(fs, p).value)
  {
    hide Wf, AddDir, SplitDir;
    DirExists(fs, Parent(p).value);
    AddDirKeepsWf(fs, SplitDir(fs, Parent(p).value).value, Filename(p).value);
  }

  lemma DeleteKeepsWf(fs: Fs, p: string)
    requires Wf(fs) && Delete(fs, p).Ok?
    ensures Wf(Delete(fs, p).value)
  {
    hide Wf, SetEntries, RelativeDir, Without, Entries;
    if IsRoot(p) {
      RootExists(fs);
      FewerEntriesKeepWf(fs, ROOT, []);
    } else {
      DirExists(fs, Parent(p).value);
      WithoutKeepsWf(fs, RelativeDir(fs, Parent(p).value).value, Filename(p).value);
    }
  }

  /** Contents of file `f` replaced, as writing through a handle does. */
  function SetData(fs: Fs, f: Id, data: seq<bv8>): Fs {
    if f in fs.files then fs.(files := fs.files[f := fs.files[f].(data := data)]) else fs
  }

  lemma SetDataKeepsWf(fs: Fs, f: Id, data: seq<bv8>)
    requires Wf(fs)
    ensures Wf(SetData(fs, f, data))
  {
    var fs' := SetData(fs, f, data);
    forall e, i | e in fs'.dirs && 0 <= i < |fs'.dirs[e].entries|
      ensures ItemOk(fs', e, fs'.dirs[e].entries[i])
    {
      assert ItemOk(fs, e, fs.dirs[e].entries[i]);
    }
  }

  // ----- contents and structure do not interfere -----

  lemma {:induction false} SameNamesSameSearch(fs: Fs, f: Id, data: seq<bv8>, items: seq<Item>, name: string)
    ensures SameSearch(fs, items, SetData(fs, f, data), items, name)
  {
    if items != [] {
      SameNamesSameSearch(fs, f, data, items[1..], name);
    }
  }

  lemma {:induction false} WriteKeepsFound(fs: Fs, f: Id, data: seq<bv8>, d: Id, path: string)
    ensures FindDir(SetData(fs, f, data), d, path) == FindDir(fs, d, path)
    ensures FindFile(SetData(fs, f, data), d, path) == FindFile(fs, d, path)
    decreases |path|
  {
    match SplitFromTop(path)
    case None => SameNamesSameSearch(fs, f, data, Entries(fs, d), path);
    case Some((top, rest)) =>
      SplitShortens(path);
      SameNamesSameSearch(fs, f, data, Entries(fs, d), top);
      match FirstDir(fs, Entries(fs, d), top)
      case None =>
      case Some(sub) => WriteKeepsFound(fs, f, data, sub, rest);
  }

  /** Writing to a file changes what no path resolves to. */
  lemma WriteKeepsLookups(fs: Fs, f: Id, data: seq<bv8>, p: string)
    ensures var fs' := SetData(fs, f, data);
            OpenFile(fs', p) == OpenFile(fs, p) && OpenDir(fs', p) == OpenDir(fs, p) && TypeOf(fs', p) == TypeOf(fs, p)
  {
    hide FindDir, FindFile, SetData, Entries, FirstNamed, RelativeDir, Parent, Filename;
    if SplitFromTop(p).Some? {
      WriteKeepsFound(fs, f, data, ROOT, SplitFromTop(p).value.1);
    }
    WriteKeepsDir(fs, f, data, p);
    if Parent(p).Some? {
      var parent := Parent(p).value;
      WriteKeepsDir(fs, f, data, parent);
      if RelativeDir(fs, parent).Ok? && Filename(p).Some? {
        var d := RelativeDir(fs, parent).value;
        WriteKeepsEntries(fs, f, data, d);
        SameNamesSameSearch(fs, f, data, Entries(fs, d), Filename(p).value);
      }
    }
  }

  lemma WriteKeepsDir(fs: Fs, f: Id, data: seq<bv8>, p: string)
    ensures RelativeDir(SetData(fs, f, data), p) == RelativeDir(fs, p)
  {
    hide FindDir, SetData;
    if RelativeTo(p, "/").Some? {
      WriteKeepsFound(fs, f, data, ROOT, RelativeTo(p, "/").value);
    }
  }

  lemma WriteKeepsEntries(fs: Fs, f: Id, data: seq<bv8>, d: Id)
    ensures Entries(SetData(fs, f, data), d) == Entries(fs, d)
  {
  }

  /** Creating and deleting leave the contents of every existing file alone; a new file is empty. */
  lemma ContentsKept(fs: Fs, p: string)
    requires Wf(fs)
    ensures Delete(fs, p).Ok? ==> Delete(fs, p).value.files == fs.files
    ensures CreateDir(fs, p).Ok? ==> CreateDir(fs, p).value.files == fs.files
    ensures CreateFile(fs, p).Ok? ==>
              var (fs', f) := CreateFile(fs, p).value;
              f !in fs.files && f in fs'.files && fs'.files[f].data == [] && fs'.files - {f} == fs.files
  {
    hide SplitDir, RelativeDir, Parent, Filename, Without;
    if CreateFile(fs, p).Ok? {
      var (fs', f) := CreateFile(fs, p).value;
      assert fs'.files - {f} == fs.files;
    }
  }

  // ----- runs -----

  datatype Call =
    | CallCreateFile(path: string)
    | CallCreateDir(path: string)
    | CallDelete(path: string)
    | CallWrite(file: Id, data: seq<bv8>)

  /** A call that fails changes nothing. */
  function Apply(fs: Fs, call: Call): Fs {
    match call
    case CallCreateFile(p) => (match CreateFile(fs, p) case Ok((fs', _)) => fs' case _ => fs)
    case CallCreateDir(p) => (match CreateDir(fs, p) case Ok(fs') => fs' case _ => fs)
    case CallDelete(p) => (match Delete(fs, p) case Ok(fs') => fs' case _ => fs)
    case CallWrite(f, data) => SetData(fs, f, data)
  }

  /** The file system after a sequence of calls on a new one. */
  function After(calls: seq<Call>): Fs {
    if calls == [] then NewFs() else Apply(After(calls[..|calls| - 1]), calls[|calls| - 1])
  }

  lemma ApplyKeepsWf(fs: Fs, call: Call)
    requires Wf(fs)
    ensures Wf(Apply(fs, call))
  {
    hide Wf, CreateFile, CreateDir, Delete, SetData;
    match call
    case CallCreateFile(p) => if CreateFile(fs, p).Ok? { CreateFileKeepsWf(fs, p); }
    case CallCreateDir(p) => if CreateDir(fs, p).Ok? { CreateDirKeepsWf(fs, p); }
    case CallDelete(p) => if Delete(fs, p).Ok? { DeleteKeepsWf(fs, p); }
    case CallWrite(f, data) => SetDataKeepsWf(fs, f, data);
  }

  /** Whatever is called, every directory entry refers to an object that knows its directory. */
  lemma {:induction false} EveryRunIsWf(calls: seq<Call>)
    ensures Wf(After(calls))
  {
    if calls != [] {
      EveryRunIsWf(calls[..|calls| - 1]);
      ApplyKeepsWf(After(calls[..|calls| - 1]), calls[|calls| - 1]);
    }
  }
}
