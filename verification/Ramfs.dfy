/** The in-memory file system: directories and files as shared objects, lookups and operations on
    path strings. */
module Ramfs {
  import opened Pages
  import opened Paths

  /** The identity of a directory or file object. */
  type Id = nat

  const ROOT: Id := 0

  datatype Item = DirRef(id: Id) | FileRef(id: Id)

  datatype Dir = Dir(name: string, entries: seq<Item>, parent: Id)

  datatype RamFile = RamFile(name: string, data: seq<bv8>, parent: Id)

  /** All objects ever created, by identity; `next` is the identity of the next one. */
  datatype Fs = Fs(dirs: map<Id, Dir>, files: map<Id, RamFile>, next: Id)

  function NewFs(): Fs {
    Fs(map[ROOT := Dir("/", [], ROOT)], map[], 1)
  }

  datatype VfsError =
    | PathDoesNotExist
    | DirectoryDoesNotExist
    | PathAlreadyExists
    | PathIsNotAbsolute
    | PathDoesNotHaveAFilename

  /** `Panic` stands for an `unwrap` of nothing. */
  datatype Result<+T> = Ok(value: T) | Err(error: VfsError) | Panic

  datatype FileType = File | Directory

  // ----- entries of one directory -----

  function Entries(fs: Fs, d: Id): seq<Item> {
    if d in fs.dirs then fs.dirs[d].entries else []
  }

  function Name(fs: Fs, item: Item): string {
    match item
    case DirRef(id) => if id in fs.dirs then fs.dirs[id].name else ""
    case FileRef(id) => if id in fs.files then fs.files[id].name else ""
  }

  function FirstDir(fs: Fs, items: seq<Item>, name: string): Option<Id> {
    if items == [] then None
    else if items[0].DirRef? && Name(fs, items[0]) == name then Some(items[0].id)
    else FirstDir(fs, items[1..], name)
  }

  function FirstFile(fs: Fs, items: seq<Item>, name: string): Option<Id> {
    if items == [] then None
    else if items[0].FileRef? && Name(fs, items[0]) == name then Some(items[0].id)
    else FirstFile(fs, items[1..], name)
  }

  function FirstNamed(fs: Fs, items: seq<Item>, name: string): Option<Item> {
    if items == [] then None
    else if Name(fs, items[0]) == name then Some(items[0])
    else FirstNamed(fs, items[1..], name)
  }

  /** `retain(|e| e.name() != name)` */
  function Without(fs: Fs, items: seq<Item>, name: string): seq<Item> {
    if items == [] then []
    else (if Name(fs, items[0]) == name then [] else [items[0]]) + Without(fs, items[1..], name)
  }

  // ----- lookups, splitting from the front -----

  /** `find_dir` */
  function FindDir(fs: Fs, d: Id, path: string): Option<Id>
    decreases |path|
  {
    match SplitFromTop(path)
    case None => FirstDir(fs, Entries(fs, d), path)
    case Some((top, rest)) =>
      SplitShortens(path);
      match FirstDir(fs, Entries(fs, d), top)
      case None => None
      case Some(sub) => FindDir(fs, sub, rest)
  }

  /** `find_file` */
  function FindFile(fs: Fs, d: Id, path: string): Option<Id>
    decreases |path|
  {
    match SplitFromTop(path)
    case None => FirstFile(fs, Entries(fs, d), path)
    case Some((top, rest)) =>
      SplitShortens(path);
      match FirstDir(fs, Entries(fs, d), top)
      case None => None
      case Some(sub) => FindFile(fs, sub, rest)
  }

  // ----- operations -----

  /** The directory of a parent path, as `file_type`, `delete` and `open_dir` find it. */
  function RelativeDir(fs: Fs, p: string): Result<Id> {
    if IsRoot(p) then Ok(ROOT)
    else match RelativeTo(p, "/")
      case None => Panic
      case Some(rest) =>
        match FindDir(fs, ROOT, rest)
        case None => Err(PathDoesNotExist)
        case Some(d) => Ok(d)
  }

  /** The directory of a parent path, as `create_file` and `create_dir` find it. */
  function SplitDir(fs: Fs, p: string): Result<Id> {
    if IsRoot(p) then Ok(ROOT)
    else match SplitFromTop(p)
      case None => Panic
      case Some((_, rest)) =>
        match FindDir(fs, ROOT, rest)
        case None => Err(DirectoryDoesNotExist)
        case Some(d) => Ok(d)
  }

  function TypeOf(fs: Fs, p: string): Result<FileType> {
    if !HasRoot(p) then Err(PathIsNotAbsolute)
    else if IsRoot(p) then Ok(Directory)
    else match Parent(p)
      case None => Panic
      case Some(parent) =>
        match RelativeDir(fs, parent)
        case Panic => Panic
        case Err(e) => Err(e)
        case Ok(d) =>
          match Filename(p)
          case None => Panic
          case Some(name) =>
            match FirstNamed(fs, Entries(fs, d), name)
            case None => Err(PathDoesNotExist)
            case Some(item) => Ok(if item.DirRef? then Directory else File)
  }

  predicate Exists(fs: Fs, p: string) {
    TypeOf(fs, p).Ok?
  }

  function OpenFile(fs: Fs, p: string): Result<Id> {
    if !HasRoot(p) then Err(PathIsNotAbsolute)
    else match SplitFromTop(p)
      case None => Err(PathDoesNotHaveAFilename)
      case Some((_, rest)) =>
        match FindFile(fs, ROOT, rest)
        case None => Err(PathDoesNotExist)
        case Some(f) => Ok(f)
  }

  /** The directory `open_dir` lists. */
  function OpenDir(fs: Fs, p: string): Result<Id> {
    if !HasRoot(p) then Err(PathIsNotAbsolute) else RelativeDir(fs, p)
  }

  function SetEntries(fs: Fs, d: Id, items: seq<Item>): Fs {
    if d in fs.dirs then fs.(dirs := fs.dirs[d := fs.dirs[d].(entries := items)]) else fs
  }

  function AddFile(fs: Fs, d: Id, name: string): Fs {
    var id := fs.next;
    SetEntries(fs.(files := fs.files[id := RamFile(name, [], d)], next := id + 1), d, Entries(fs, d) + [FileRef(id)])
  }

  function AddDir(fs: Fs, d: Id, name: string): Fs {
    var id := fs.next;
    SetEntries(fs.(dirs := fs.dirs[id := Dir(name, [], d)], next := id + 1), d, Entries(fs, d) + [DirRef(id)])
  }

  /** The new file system and the file created. */
  function CreateFile(fs: Fs, p: string): Result<(Fs, Id)> {
    if !HasRoot(p) then Err(PathIsNotAbsolute)
    else match Parent(p)
      case None => Err(PathDoesNotHaveAFilename)
      case Some(parent) =>
        match SplitDir(fs, parent)
        case Panic => Panic
        case Err(e) => Err(e)
        case Ok(d) =>
          match Filename(p)
          case None => Panic
          case Some(name) => Ok((AddFile(fs, d, name), fs.next))
  }

  function CreateDir(fs: Fs, p: string): Result<Fs> {
    if !HasRoot(p) then Err(PathIsNotAbsolute)
    else match Parent(p)
      case None => Err(PathAlreadyExists)
      case Some(parent) =>
        match SplitDir(fs, parent)
        case Panic => Panic
        case Err(e) => Err(e)
        case Ok(d) =>
          match Filename(p)
          case None => Panic
          case Some(name) => Ok(AddDir(fs, d, name))
  }

  function Delete(fs: Fs, p: string): Result<Fs> {
    if !HasRoot(p) then Err(PathIsNotAbsolute)
    else if IsRoot(p) then Ok(SetEntries(fs, ROOT, []))
    else match Parent(p)
      case None => Panic
      case Some(parent) =>
        match RelativeDir(fs, parent)
        case Panic => Panic
        case Err(e) => Err(e)
        case Ok(d) =>
          match Filename(p)
          case None => Panic
          case Some(name) => Ok(SetEntries(fs, d, Without(fs, Entries(fs, d), name)))
  }
}
