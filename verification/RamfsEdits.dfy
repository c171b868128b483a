/** What creating and deleting change, path by path. */
module RamfsEdits {
  import opened Pages
  import opened Ramfs
  import opened RamfsLookup

  // ----- invariant -----

  /** The entry refers to an object that records directory `d` as its parent; the root has none. */
  predicate ItemOk(fs: Fs, d: Id, item: Item) {
    match item
    case DirRef(id) => id in fs.dirs && id != ROOT && fs.dirs[id].parent == d
    case FileRef(id) => id in fs.files && fs.files[id].parent == d
  }

  ghost predicate Wf(fs: Fs) {
    && ROOT in fs.dirs
    && (forall d | d in fs.dirs :: d < fs.next)
    && (forall f | f in fs.files :: f < fs.next)
    && (forall d, i | d in fs.dirs && 0 <= i < |fs.dirs[d].entries| :: ItemOk(fs, d, fs.dirs[d].entries[i]))
  }

  lemma SameLast(cs: seq<string>, name: string, q: seq<string>, x: string)
    ensures cs + [name] == q + [x] <==> cs == q && name == x
    ensures cs + [name] <= q + [x] <==> cs + [name] <= q || (cs == q && name == x)
  {
    var p, r := cs + [name], q + [x];
    if p == r {
      assert p[..|cs|] == cs && r[..|q|] == q;
      assert p[|cs|] == name && r[|q|] == x;
    }
    if p <= r && |p| < |r| {
      assert r[..|p|] == q[..|p|];
    }
    if p <= r && |p| == |r| {
      assert r[..|p|] == r;
    }
  }

  // ----- entries found -----

  lemma {:induction false} FirstDirFound(fs: Fs, items: seq<Item>, name: string)
    ensures match FirstDir(fs, items, name)
            case Some(id) => DirRef(id) in items && Name(fs, DirRef(id)) == name
            case None => forall id | DirRef(id) in items :: Name(fs, DirRef(id)) != name
  {
    if items != [] {
      FirstDirFound(fs, items[1..], name);
      assert items == [items[0]] + items[1..];
    }
  }

  /** A directory reached lies in its parent under the last name. */
  lemma ReachedFromParent(fs: Fs, cs: seq<string>, name: string)
    requires Wf(fs) && Reach(fs, ROOT, cs + [name]).Some?
    ensures var d := Reach(fs, ROOT, cs + [name]).value;
            && d in fs.dirs && d != ROOT && fs.dirs[d].name == name
            && Reach(fs, ROOT, cs) == Some(fs.dirs[d].parent)
  {
    ReachLast(fs, ROOT, cs, name);
    var e := Reach(fs, ROOT, cs).value;
    FirstDirFound(fs, Entries(fs, e), name);
    var d := Reach(fs, ROOT, cs + [name]).value;
    assert DirRef(d) in Entries(fs, e);
    var i :| 0 <= i < |Entries(fs, e)| && Entries(fs, e)[i] == DirRef(d);
    assert ItemOk(fs, e, fs.dirs[e].entries[i]);
  }

  lemma LastOff<T>(s: seq<T>) returns (front: seq<T>, last: T)
    requires s != []
    ensures s == front + [last] && |front| == |s| - 1
  {
    front, last := s[..|s| - 1], s[|s| - 1];
  }

  lemma RootReaches(fs: Fs)
    ensures Reach(fs, ROOT, []) == Some(ROOT)
  {
  }

  lemma {:induction false} ReachedExists(fs: Fs, cs: seq<string>)
    requires Wf(fs) && Reach(fs, ROOT, cs).Some?
    ensures Reach(fs, ROOT, cs).value in fs.dirs
  {
    hide Reach;
    if cs == [] {
      RootReaches(fs);
    } else {
      var front, name := LastOff(cs);
      ReachedFromParent(fs, front, name);
    }
  }

  /** No directory is reached by two paths. */
  lemma {:induction false} OnlyPath(fs: Fs, p: seq<string>, q: seq<string>)
    requires Wf(fs) && Reach(fs, ROOT, p).Some? && Reach(fs, ROOT, p) == Reach(fs, ROOT, q)
    ensures p == q
    decreases |p|
  {
    hide Wf, Reach;
    RootReaches(fs);
    if p != [] {
      var front, name := LastOff(p);
      ReachedFromParent(fs, front, name);
      if q != [] {
        var front', name' := LastOff(q);
        ReachedFromParent(fs, front', name');
        OnlyPath(fs, front, front');
      }
    } else if q != [] {
      var front', name' := LastOff(q);
      ReachedFromParent(fs, front', name');
    }
  }

  // ----- changing the entries of one directory -----

  /** Only the entries of directory `d` differ; no object is renamed, some may be new. */
  ghost predicate EditedAt(fs: Fs, fs': Fs, d: Id) {
    && (forall e | e in fs.dirs :: e in fs'.dirs && fs'.dirs[e].name == fs.dirs[e].name)
    && (forall e | e in fs.dirs && e != d :: fs'.dirs[e].entries == fs.dirs[e].entries)
    && (forall f | f in fs.files :: f in fs'.files && fs'.files[f].name == fs.files[f].name)
  }

  ghost predicate Known(fs: Fs, items: seq<Item>) {
    forall i | 0 <= i < |items| :: match items[i] case DirRef(id) => id in fs.dirs case FileRef(id) => id in fs.files
  }

  /** The three searches give the same answers. */
  ghost predicate SameSearch(fs: Fs, items: seq<Item>, fs': Fs, items': seq<Item>, name: string) {
    && FirstDir(fs', items', name) == FirstDir(fs, items, name)
    && FirstFile(fs', items', name) == FirstFile(fs, items, name)
    && FirstNamed(fs', items', name) == FirstNamed(fs, items, name)
  }

  lemma {:induction false} SameEntriesSameSearch(fs: Fs, fs': Fs, d: Id, items: seq<Item>, name: string)
    requires EditedAt(fs, fs', d) && Known(fs, items)
    ensures SameSearch(fs, items, fs', items, name)
    decreases |items|
  {
    if items != [] {
      assert Known(fs, items[1..]);
      SameEntriesSameSearch(fs, fs', d, items[1..], name);
      assert Name(fs', items[0]) == Name(fs, items[0]);
    }
  }

  lemma EntriesKnown(fs: Fs, d: Id)
    requires Wf(fs)
    ensures Known(fs, Entries(fs, d))
  {
    if d in fs.dirs {
      forall i | 0 <= i < |fs.dirs[d].entries|
        ensures match fs.dirs[d].entries[i] case DirRef(id) => id in fs.dirs case FileRef(id) => id in fs.files
      {
        assert ItemOk(fs, d, fs.dirs[d].entries[i]);
      }
    }
  }

  lemma SearchElsewhere(fs: Fs, fs': Fs, d: Id, e: Id, name: string)
    requires Wf(fs) && EditedAt(fs, fs', d) && e in fs.dirs && e != d
    ensures SameSearch(fs, Entries(fs, e), fs', Entries(fs', e), name)
  {
    EntriesKnown(fs, e);
    SameEntriesSameSearch(fs, fs', d, Entries(fs, e), name);
  }

  // ----- delete -----

  lemma {:induction false} SearchWithout(fs: Fs, fs': Fs, d: Id, items: seq<Item>, gone: string, name: string)
    requires EditedAt(fs, fs', d) && Known(fs, items)
    ensures name != gone ==> SameSearch(fs, items, fs', Without(fs, items, gone), name)
    ensures FirstDir(fs', Without(fs, items, gone), gone) == None
    ensures FirstFile(fs', Without(fs, items, gone), gone) == None
    ensures FirstNamed(fs', Without(fs, items, gone), gone) == None
    decreases |items|
  {
    if items != [] {
      assert Known(fs, items[1..]);
      SearchWithout(fs, fs', d, items[1..], gone, name);
      assert Name(fs', items[0]) == Name(fs, items[0]);
      if Name(fs, items[0]) != gone {
        assert Without(fs, items, gone)[1..] == Without(fs, items[1..], gone);
      } else {
        assert Without(fs, items, gone) == Without(fs, items[1..], gone);
      }
    }
  }

  /** The entries called `name` taken out of the directory that `cs` leads to. */
  ghost predicate Deleted(fs: Fs, cs: seq<string>, name: string, fs': Fs) {
    && Reach(fs, ROOT, cs).Some?
    && var d := Reach(fs, ROOT, cs).value;
       fs' == SetEntries(fs, d, Without(fs, Entries(fs, d), name))
  }

  lemma DeleteEdits(fs: Fs, cs: seq<string>, name: string, fs': Fs)
    requires Wf(fs) && Deleted(fs, cs, name, fs')
    ensures var d := Reach(fs, ROOT, cs).value;
            d in fs.dirs && EditedAt(fs, fs', d) && Entries(fs', d) == Without(fs, Entries(fs, d), name)
  {
    ReachedExists(fs, cs);
  }

  /** One more component, after the directory before it is known to be reached as before. */
  lemma SearchAfterDelete(fs: Fs, cs: seq<string>, name: string, fs': Fs, q: seq<string>, x: string)
    requires Wf(fs) && Deleted(fs, cs, name, fs') && Reach(fs, ROOT, q).Some? && !(q == cs && x == name)
    ensures var e := Reach(fs, ROOT, q).value;
            SameSearch(fs, Entries(fs, e), fs', Entries(fs', e), x)
  {
    DeleteEdits(fs, cs, name, fs');
    ReachedExists(fs, q);
    var d, e := Reach(fs, ROOT, cs).value, Reach(fs, ROOT, q).value;
    if e == d {
      OnlyPath(fs, q, cs);
      EntriesKnown(fs, d);
      SearchWithout(fs, fs', d, Entries(fs, d), name, x);
    } else {
      SearchElsewhere(fs, fs', d, e, x);
    }
  }

  /** Directories outside the deleted path are reached as before. */
  lemma {:induction false} ReachAfterDelete(fs: Fs, cs: seq<string>, name: string, fs': Fs, q: seq<string>)
    requires Wf(fs) && Deleted(fs, cs, name, fs') && !(cs + [name] <= q)
    ensures Reach(fs', ROOT, q) == Reach(fs, ROOT, q)
    decreases |q|
  {
    if q != [] {
      var front, x := q[..|q| - 1], q[|q| - 1];
      assert q == front + [x];
      ReachAfterDelete(fs, cs, name, fs', front);
      ReachLast(fs, ROOT, front, x);
      ReachLast(fs', ROOT, front, x);
      if Reach(fs, ROOT, front).Some? {
        SearchAfterDelete(fs, cs, name, fs', front, x);
      }
    }
  }

  lemma DeletedIsGone(fs: Fs, cs: seq<string>, name: string, fs': Fs)
    requires Wf(fs) && Deleted(fs, cs, name, fs')
    ensures Reach(fs', ROOT, cs + [name]) == None
    ensures FileAt(fs', ROOT, cs, name) == None && ItemAt(fs', ROOT, cs, name) == None
  {
    ReachAfterDelete(fs, cs, name, fs', cs);
    DeleteEdits(fs, cs, name, fs');
    var d := Reach(fs, ROOT, cs).value;
    EntriesKnown(fs, d);
    SearchWithout(fs, fs', d, Entries(fs, d), name, name);
    ReachLast(fs', ROOT, cs, name);
  }

  /** What a path with components q/x resolves to, as a directory, as a file, and as an entry. */
  ghost predicate SameAt(fs: Fs, fs': Fs, q: seq<string>, x: string) {
    && Reach(fs', ROOT, q + [x]) == Reach(fs, ROOT, q + [x])
    && FileAt(fs', ROOT, q, x) == FileAt(fs, ROOT, q, x)
    && ItemAt(fs', ROOT, q, x) == ItemAt(fs, ROOT, q, x)
  }

  ghost predicate NothingAt(fs: Fs, q: seq<string>, x: string) {
    && Reach(fs, ROOT, q + [x]) == None
    && FileAt(fs, ROOT, q, x) == None
    && ItemAt(fs, ROOT, q, x) == None
  }

  /** A deleted path and everything below it is gone, and every other path resolves as before. */
  lemma DeleteFootprint(fs: Fs, cs: seq<string>, name: string, fs': Fs, q: seq<string>, x: string)
    requires Wf(fs) && Deleted(fs, cs, name, fs')
    ensures if cs + [name] <= q + [x] then NothingAt(fs', q, x) else SameAt(fs, fs', q, x)
  {
    var p := cs + [name];
    SameLast(cs, name, q, x);
    if p <= q {
      assert q == p + q[|p|..];
      DeletedIsGone(fs, cs, name, fs');
      ReachAppend(fs', ROOT, p, q[|p|..]);
      ReachLast(fs', ROOT, q, x);
    } else if p <= q + [x] {
      DeletedIsGone(fs, cs, name, fs');
    } else {
      ReachAfterDelete(fs, cs, name, fs', q);
      ReachAfterDelete(fs, cs, name, fs', q + [x]);
      if Reach(fs, ROOT, q).Some? {
        SearchAfterDelete(fs, cs, name, fs', q, x);
      }
    }
  }

  // ----- create -----

  lemma {:induction false} SearchWithOneMore(fs: Fs, fs': Fs, d: Id, items: seq<Item>, item: Item, name: string)
    requires EditedAt(fs, fs', d) && Known(fs, items)
    ensures var all := items + [item];
            && FirstDir(fs', all, name) == (match FirstDir(fs, items, name)
                                            case Some(id) => Some(id)
                                            case None => FirstDir(fs', [item], name))
            && FirstFile(fs', all, name) == (match FirstFile(fs, items, name)
                                             case Some(id) => Some(id)
                                             case None => FirstFile(fs', [item], name))
            && FirstNamed(fs', all, name) == (match FirstNamed(fs, items, name)
                                              case Some(i) => Some(i)
                                              case None => FirstNamed(fs', [item], name))
    decreases |items|
  {
    var all := items + [item];
    if items == [] {
      assert all == [item];
    } else {
      assert Known(fs, items[1..]);
      assert all[1..] == items[1..] + [item];
      SearchWithOneMore(fs, fs', d, items[1..], item, name);
      assert Name(fs', items[0]) == Name(fs, items[0]);
    }
  }

  /** A new object called `name`, listed last in the directory that `cs` leads to. */
  ghost predicate Created(fs: Fs, cs: seq<string>, name: string, item: Item, fs': Fs) {
    && Reach(fs, ROOT, cs).Some?
    && var d := Reach(fs, ROOT, cs).value;
       && EditedAt(fs, fs', d) && d in fs.dirs
       && Entries(fs', d) == Entries(fs, d) + [item] && Name(fs', item) == name
       && (item.DirRef? ==> item.id !in fs.dirs && Entries(fs', item.id) == [])
  }

  lemma AddFileCreates(fs: Fs, cs: seq<string>, name: string)
    requires Wf(fs) && Reach(fs, ROOT, cs).Some?
    ensures Created(fs, cs, name, FileRef(fs.next), AddFile(fs, Reach(fs, ROOT, cs).value, name))
  {
    ReachedExists(fs, cs);
  }

  lemma AddDirCreates(fs: Fs, cs: seq<string>, name: string)
    requires Wf(fs) && Reach(fs, ROOT, cs).Some?
    ensures Created(fs, cs, name, DirRef(fs.next), AddDir(fs, Reach(fs, ROOT, cs).value, name))
  {
    ReachedExists(fs, cs);
  }

  /** One more component after a directory that is reached as before. */
  lemma SearchAfterCreate(fs: Fs, cs: seq<string>, name: string, item: Item, fs': Fs, q: seq<string>, x: string)
    requires Wf(fs) && Created(fs, cs, name, item, fs') && Reach(fs, ROOT, q).Some?
    ensures var e := Reach(fs, ROOT, q).value;
            var here := q == cs && x == name;
            && FirstDir(fs', Entries(fs', e), x) == (match FirstDir(fs, Entries(fs, e), x)
                 case Some(id) => Some(id)
                 case None => if here && item.DirRef? then Some(item.id) else None)
            && FirstFile(fs', Entries(fs', e), x) == (match FirstFile(fs, Entries(fs, e), x)
                 case Some(id) => Some(id)
                 case None => if here && item.FileRef? then Some(item.id) else None)
            && FirstNamed(fs', Entries(fs', e), x) == (match FirstNamed(fs, Entries(fs, e), x)
                 case Some(i) => Some(i)
                 case None => if here then Some(item) else None)
  {
    ReachedExists(fs, q);
    var d, e := Reach(fs, ROOT, cs).value, Reach(fs, ROOT, q).value;
    if e == d {
      OnlyPath(fs, q, cs);
      EntriesKnown(fs, d);
      SearchWithOneMore(fs, fs', d, Entries(fs, d), item, x);
    } else {
      SearchElsewhere(fs, fs', d, e, x);
    }
  }

  /** A directory is reached as before, except that a new directory's path may start to lead to it. */
  lemma {:induction false} ReachAfterCreate(fs: Fs, cs: seq<string>, name: string, item: Item, fs': Fs, q: seq<string>)
    requires Wf(fs) && Created(fs, cs, name, item, fs')
    ensures Reach(fs', ROOT, q) == match Reach(fs, ROOT, q)
              case Some(e) => Some(e)
              case None => if item.DirRef? && q == cs + [name] then Some(item.id) else None
    decreases |q|
  {
    if q != [] {
      var front, x := q[..|q| - 1], q[|q| - 1];
      assert q == front + [x];
      ReachAfterCreate(fs, cs, name, item, fs', front);
      ReachLast(fs, ROOT, front, x);
      ReachLast(fs', ROOT, front, x);
      if Reach(fs, ROOT, front).Some? {
        SearchAfterCreate(fs, cs, name, item, fs', front, x);
        assert q == cs + [name] <==> front == cs && x == name;
      } else {
        assert front != cs;
      }
    }
  }

  /** Creating is purely additive: what resolved before resolves to the same object, and only the
      created path can start to resolve, to the created object. */
  lemma CreateFootprint(fs: Fs, cs: seq<string>, name: string, item: Item, fs': Fs, q: seq<string>, x: string)
    requires Wf(fs) && Created(fs, cs, name, item, fs')
    ensures var here := q == cs && x == name;
            && Reach(fs', ROOT, q + [x]) == (match Reach(fs, ROOT, q + [x])
                 case Some(e) => Some(e)
                 case None => if here && item.DirRef? then Some(item.id) else None)
            && FileAt(fs', ROOT, q, x) == (match FileAt(fs, ROOT, q, x)
                 case Some(f) => Some(f)
                 case None => if here && item.FileRef? then Some(item.id) else None)
            && ItemAt(fs', ROOT, q, x) == (match ItemAt(fs, ROOT, q, x)
                 case Some(i) => Some(i)
                 case None => if here then Some(item) else None)
  {
    ReachAfterCreate(fs, cs, name, item, fs', q);
    ReachAfterCreate(fs, cs, name, item, fs', q + [x]);
    SameLast(cs, name, q, x);
    if Reach(fs, ROOT, q).Some? {
      SearchAfterCreate(fs, cs, name, item, fs', q, x);
    }
  }
}
