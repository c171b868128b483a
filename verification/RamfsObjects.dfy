/** The file system and its handles as objects that are updated in place. */
module RamfsObjects {
  import opened Pages
  import opened Paths
  import opened Ramfs
  import opened RamfsEdits
  import opened RamfsRuns
  import opened RamfsTheorems
  import opened RamfsListing
  import opened FileHandles

  class RamFileSystem {
    var dirs: map<Id, Dir>
    var files: map<Id, RamFile>
    var next: Id

    constructor ()
      ensures View() == NewFs()
    {
      dirs, files, next := map[ROOT := Dir("/", [], ROOT)], map[], 1;
    }

    function View(): Fs
      reads this
    {
      Fs(dirs, files, next)
    }

    /** `find_dir`: scans the entries for the first matching directory and descends into it. */
    method LookupDir(d: Id, path: string) returns (r: Option<Id>)
      ensures r == FindDir(View(), d, path)
      decreases |path|
    {
      SplitShortens(path);
      var items := Entries(View(), d);
      var split := SplitFromTop(path);
      var wanted := if split.Some? then split.value.0 else path;
      for i := 0 to |items|
        invariant FirstDir(View(), items, wanted) == FirstDir(View(), items[i..], wanted)
      {
        if items[i].DirRef? && Name(View(), items[i]) == wanted {
          if split.Some? {
            r := LookupDir(items[i].id, split.value.1);
          } else {
            r := Some(items[i].id);
          }
          return;
        }
      }
      r := None;
    }

    /** `find_file` */
    method LookupFile(d: Id, path: string) returns (r: Option<Id>)
      ensures r == FindFile(View(), d, path)
      decreases |path|
    {
      SplitShortens(path);
      var items := Entries(View(), d);
      var split := SplitFromTop(path);
      if split.None? {
        for i := 0 to |items|
          invariant FirstFile(View(), items, path) == FirstFile(View(), items[i..], path)
        {
          if items[i].FileRef? && Name(View(), items[i]) == path {
            return Some(items[i].id);
          }
        }
      } else {
        var (top, rest) := split.value;
        for i := 0 to |items|
          invariant FirstDir(View(), items, top) == FirstDir(View(), items[i..], top)
        {
          if items[i].DirRef? && Name(View(), items[i]) == top {
            r := LookupFile(items[i].id, rest);
            return;
          }
        }
      }
      r := None;
    }

    /** `retain(|e| e.name() != name)` on the entries of directory `d`. */
    method Retain(d: Id, name: string)
      requires d in dirs
      modifies this
      ensures View() == SetEntries(old(View()), d, Without(old(View()), old(Entries(View(), d)), name))
    {
      hide Without;
      var items := dirs[d].entries;
      assert items[0..] == items && items[|items|..] == [];
      var kept: seq<Item> := [];
      for i := 0 to |items|
        invariant View() == old(View())
        invariant Without(View(), items, name) == kept + Without(View(), items[i..], name)
      {
        WithoutSteps(View(), items, i, name, kept);
        if Name(View(), items[i]) != name {
          kept := kept + [items[i]];
        }
      }
      NothingToKeep(View(), name);
      assert kept + [] == kept;
      dirs := dirs[d := dirs[d].(entries := kept)];
    }

    /** The directory for a new entry. */
    method DirBySplitting(parent: string) returns (r: Result<Id>)
      requires HasRoot(parent)
      ensures r == SplitDir(View(), parent)
    {
      if IsRoot(parent) {
        return Ok(ROOT);
      }
      assert parent == "" + "/" + parent[1..];
      SplitAt("", parent[1..]);
      var found := LookupDir(ROOT, SplitFromTop(parent).value.1);
      r := if found.None? then Err(DirectoryDoesNotExist) else Ok(found.value);
    }

    /** The directory to delete from. */
    method DirByPrefix(parent: string) returns (r: Result<Id>)
      requires HasRoot(parent)
      ensures r == RelativeDir(View(), parent)
    {
      if IsRoot(parent) {
        return Ok(ROOT);
      }
      var found := LookupDir(ROOT, RelativeTo(parent, "/").value);
      r := if found.None? then Err(PathDoesNotExist) else Ok(found.value);
    }

    method OpenFile(path: string) returns (r: Result<FileHandle>)
      ensures match Ramfs.OpenFile(View(), path)
              case Ok(f) => r.Ok? && fresh(r.value) && r.value.Fresh(this, f)
              case Err(e) => r == Err(e)
              case Panic => false
      ensures Wf(View()) && r.Ok? ==> r.value.Inside()
    {
      hide Wf;
      if !HasRoot(path) {
        return Err(PathIsNotAbsolute);
      }
      var split := SplitFromTop(path);
      if split.None? {
        return Err(PathDoesNotHaveAFilename);
      }
      var found := LookupFile(ROOT, split.value.1);
      if Wf(View()) {
        FoundFileExists(View(), split.value.1);
      }
      if found.None? {
        return Err(PathDoesNotExist);
      }
      var handle := new FileHandle(this, found.value);
      r := Ok(handle);
    }

    /** Panics on the root. */
    method CreateFile(path: string) returns (r: Result<FileHandle>)
      requires path != "/" && Wf(View())
      modifies this
      ensures Wf(View())
      ensures match Ramfs.CreateFile(old(View()), path)
              case Ok((fs, f)) =>
                View() == fs && r.Ok? && fresh(r.value) && r.value.Fresh(this, f) && r.value.Inside()
              case Err(e) => View() == old(View()) && r == Err(e)
              case Panic => false
    {
      hide Wf, SplitDir, Parent, Filename;
      PanicsExactlyOnRoot(View(), path);
      if Ramfs.CreateFile(View(), path).Ok? {
        CreateFileKeepsWf(View(), path);
      }
      if !HasRoot(path) {
        return Err(PathIsNotAbsolute);
      }
      ParentIsAbsolute(path);
      var parent := Parent(path).value;
      DirExists(View(), parent);
      var dir := DirBySplitting(parent);
      if dir.Err? {
        return Err(dir.error);
      }
      var id := next;
      files := files[id := RamFile(Filename(path).value, [], dir.value)];
      next := next + 1;
      dirs := dirs[dir.value := dirs[dir.value].(entries := dirs[dir.value].entries + [FileRef(id)])];
      var handle := new FileHandle(this, id);
      r := Ok(handle);
    }

    /** Panics on the root. */
    method CreateDir(path: string) returns (r: Result<()>)
      requires path != "/" && Wf(View())
      modifies this
      ensures Wf(View())
      ensures match Ramfs.CreateDir(old(View()), path)
              case Ok(fs) => View() == fs && r == Ok(())
              case Err(e) => View() == old(View()) && r == Err(e)
              case Panic => false
    {
      hide Wf, SplitDir, Parent, Filename;
      PanicsExactlyOnRoot(View(), path);
      if Ramfs.CreateDir(View(), path).Ok? {
        CreateDirKeepsWf(View(), path);
      }
      if !HasRoot(path) {
        return Err(PathIsNotAbsolute);
      }
      ParentIsAbsolute(path);
      var parent := Parent(path).value;
      DirExists(View(), parent);
      NextIsNew(View());
      var dir := DirBySplitting(parent);
      if dir.Err? {
        return Err(dir.error);
      }
      var d, id := dir.value, next;
      dirs := dirs[id := Dir(Filename(path).value, [], d)];
      next := next + 1;
      dirs := dirs[d := dirs[d].(entries := dirs[d].entries + [DirRef(id)])];
      r := Ok(());
    }

    method Delete(path: string) returns (r: Result<()>)
      requires Wf(View())
      modifies this
      ensures Wf(View())
      ensures match Ramfs.Delete(old(View()), path)
              case Ok(fs) => View() == fs && r == Ok(())
              case Err(e) => View() == old(View()) && r == Err(e)
              case Panic => false
    {
      hide Wf, RelativeDir, Parent, Filename, Without;
      PanicsExactlyOnRoot(View(), path);
      if Ramfs.Delete(View(), path).Ok? {
        DeleteKeepsWf(View(), path);
      }
      if !HasRoot(path) {
        return Err(PathIsNotAbsolute);
      }
      RootExists(View());
      if IsRoot(path) {
        dirs := dirs[ROOT := dirs[ROOT].(entries := [])];
        return Ok(());
      }
      ParentIsAbsolute(path);
      var parent := Parent(path).value;
      DirExists(View(), parent);
      var dir := DirByPrefix(parent);
      if dir.Err? {
        return Err(dir.error);
      }
      Retain(dir.value, Filename(path).value);
      r := Ok(());
    }

    /** `file_type`: the kind of the first entry of that name. */
    method FileTypeOf(path: string) returns (r: Result<FileType>)
      ensures r == TypeOf(View(), path) && !r.Panic?
    {
      hide RelativeDir, Parent, Filename;
      PanicsExactlyOnRoot(View(), path);
      if !HasRoot(path) {
        return Err(PathIsNotAbsolute);
      }
      if IsRoot(path) {
        return Ok(Directory);
      }
      ParentIsAbsolute(path);
      var dir := DirByPrefix(Parent(path).value);
      if dir.Err? {
        return Err(dir.error);
      }
      var items, name := Entries(View(), dir.value), Filename(path).value;
      for i := 0 to |items|
        invariant FirstNamed(View(), items, name) == FirstNamed(View(), items[i..], name)
      {
        if Name(View(), items[i]) == name {
          return Ok(KindOf(items[i]));
        }
      }
      r := Err(PathDoesNotExist);
    }

    /** `open_dir`: the listing of a directory. */
    method OpenDir(path: string) returns (r: Result<seq<DirEntry>>)
      ensures r == ListDir(View(), path) && !r.Panic?
    {
      hide RelativeDir;
      PanicsExactlyOnRoot(View(), path);
      if !HasRoot(path) {
        return Err(PathIsNotAbsolute);
      }
      var dir := DirByPrefix(path);
      if dir.Err? {
        return Err(dir.error);
      }
      var items := Entries(View(), dir.value);
      var list: seq<DirEntry> := [];
      for i := 0 to |items|
        invariant list == Listing(View(), path, items[..i])
      {
        list := list + [DirEntry(path + Name(View(), items[i]), KindOf(items[i]))];
      }
      assert items[..|items|] == items;
      r := Ok(list);
    }
  }

  lemma NothingToKeep(fs: Fs, name: string)
    ensures Without(fs, [], name) == []
  {
  }

  lemma WithoutSteps(fs: Fs, items: seq<Item>, i: nat, name: string, kept: seq<Item>)
    requires i < |items|
    ensures kept + Without(fs, items[i..], name) ==
            (kept + if Name(fs, items[i]) == name then [] else [items[i]]) + Without(fs, items[i + 1..], name)
  {
    assert items[i..][1..] == items[i + 1..];
  }

  lemma NextIsNew(fs: Fs)
    requires Wf(fs)
    ensures fs.next !in fs.dirs
  {
  }

  /** `RamfsFileHandle`: a file shared with other handles, and a position of its own. */
  class FileHandle {
    const store: RamFileSystem
    const file: Id
    var pos: nat

    constructor (store: RamFileSystem, file: Id)
      ensures Fresh(store, file)
    {
      this.store, this.file, pos := store, file, 0;
    }

    predicate Fresh(store: RamFileSystem, file: Id)
      reads this
    {
      this.store == store && this.file == file && pos == 0
    }

    function Contents(): Bytes
      reads this, store
    {
      if file in store.files then store.files[file].data else []
    }

    /** The position is within the file, which the handle keeps alive. */
    ghost predicate Inside()
      reads this, store
    {
      file in store.files && pos <= |Contents()|
    }

    /** Handles are `Clone`: the copy shares the file and starts at the same position. */
    method Duplicate() returns (copy: FileHandle)
      ensures fresh(copy) && copy.store == store && copy.file == file && copy.pos == pos
      ensures Inside() ==> copy.Inside()
    {
      copy := new FileHandle(store, file);
      copy.pos := pos;
    }

    method Read(buf: array<bv8>) returns (read: nat)
      modifies this, buf
      ensures old(Inside()) ==> Inside()
      ensures read == ReadSize(Contents(), old(pos), buf.Length) && pos == old(pos) + read
      ensures buf[..] == ReadAt(Contents(), old(pos), buf.Length) + old(buf[..])[read..]
    {
      var data := Contents();
      read := 0;
      while read < buf.Length && pos + read < |data|
        invariant read <= ReadSize(data, pos, buf.Length) && pos == old(pos)
        invariant forall k | 0 <= k < read :: buf[k] == data[pos + k]
        invariant forall k | read <= k < buf.Length :: buf[k] == old(buf[k])
      {
        buf[read] := data[pos + read];
        read := read + 1;
      }
      pos := pos + read;
    }

    /** `Vec::insert` panics past the end of the file. */
    method Write(buf: Bytes) returns (wrote: nat)
      requires Inside()
      modifies this, store
      ensures Inside()
      ensures wrote == |buf| && pos == old(pos) + |buf|
      ensures store.View() == SetData(old(store.View()), file, Splice(old(Contents()), old(pos), buf))
    {
      ghost var fs, data := store.View(), Contents();
      WriteSplices(data, pos, buf);
      wrote := 0;
      while wrote < |buf|
        invariant wrote <= |buf| && pos == old(pos) && file in store.files
        invariant store.View() == SetData(fs, file, Contents())
        invariant |Contents()| == |data| + wrote
        invariant InsertFrom(Contents(), pos, buf, wrote) == Some(Splice(data, pos, buf))
      {
        var vec := store.files[file].data;
        vec := vec[..pos + wrote] + [buf[wrote]] + vec[pos + wrote..];
        store.files := store.files[file := store.files[file].(data := vec)];
        wrote := wrote + 1;
      }
      pos := pos + wrote;
    }
  }

  // ----- several handles at once -----

  ghost function FilesOf(fs: Fs): map<Id, Bytes> {
    map f | f in fs.files :: fs.files[f].data
  }

  /** The files of a store and handles on them, as the shared state that actions change. */
  ghost function SharedOf(store: RamFileSystem, hs: seq<FileHandle>): Shared
    reads store, hs
  {
    Shared(FilesOf(store.View()), seq(|hs|, i requires 0 <= i < |hs| reads hs => Handle(hs[i].file, hs[i].pos)))
  }

  ghost predicate Distinct(store: RamFileSystem, hs: seq<FileHandle>) {
    && (forall i | 0 <= i < |hs| :: hs[i].store == store)
    && (forall i, j | 0 <= i < j < |hs| :: hs[i] != hs[j])
  }

  lemma DataOfShared(store: RamFileSystem, hs: seq<FileHandle>, i: nat)
    requires Distinct(store, hs) && i < |hs|
    ensures Data(SharedOf(store, hs), hs[i].file) == hs[i].Contents()
  {
  }

  /** What the contract of `Read` says is a read action on the shared state. */
  twostate lemma ReadIsAction(store: RamFileSystem, hs: seq<FileHandle>, i: nat, n: nat)
    requires Distinct(store, hs) && i < |hs| && unchanged(store)
    requires forall j | 0 <= j < |hs| && j != i :: hs[j].pos == old(hs[j].pos)
    requires hs[i].pos == old(hs[i].pos) + ReadSize(hs[i].Contents(), old(hs[i].pos), n)
    ensures Some(SharedOf(store, hs)) == Do(old(SharedOf(store, hs)), Read(i, n))
  {
    DataOfShared(store, hs, i);
    var s, s' := old(SharedOf(store, hs)), SharedOf(store, hs);
    assert Data(s, hs[i].file) == hs[i].Contents();
    assert s'.handles == s.handles[i := s'.handles[i]];
  }

  /** What the contract of `Write` says is a write action on the shared state; so all handles stay inside
      their files, whichever share the one written to. */
  twostate lemma WriteIsAction(store: RamFileSystem, hs: seq<FileHandle>, i: nat, buf: Bytes)
    requires Distinct(store, hs) && i < |hs| && old(hs[i].Inside())
    requires forall j | 0 <= j < |hs| && j != i :: hs[j].pos == old(hs[j].pos)
    requires hs[i].pos == old(hs[i].pos) + |buf|
    requires store.View() == SetData(old(store.View()), hs[i].file, Splice(old(hs[i].Contents()), old(hs[i].pos), buf))
    ensures Some(SharedOf(store, hs)) == Do(old(SharedOf(store, hs)), Write(i, buf))
    ensures PositionsInside(old(SharedOf(store, hs))) ==> PositionsInside(SharedOf(store, hs))
  {
    var s, s' := old(SharedOf(store, hs)), SharedOf(store, hs);
    var data := old(hs[i].Contents());
    WriteSplices(data, old(hs[i].pos), buf);
    assert Data(s, hs[i].file) == data;
    assert s'.files == s.files[hs[i].file := Splice(data, old(hs[i].pos), buf)];
    assert s'.handles == s.handles[i := s'.handles[i]];
    if PositionsInside(s) {
      ActionStaysInside(s, Write(i, buf));
    }
  }
}
