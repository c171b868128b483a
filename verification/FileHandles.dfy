/** Reading and writing through handles that share a file, each with a position of its own. */
module FileHandles {
  import opened Pages
  import opened Ramfs

  type Bytes = seq<bv8>

  // ----- one read, one write -----

  function ReadSize(data: Bytes, pos: nat, n: nat): nat {
    if pos + n <= |data| then n else if pos <= |data| then |data| - pos else 0
  }

  /** The bytes a read of up to `n` bytes delivers. */
  function ReadAt(data: Bytes, pos: nat, n: nat): Bytes {
    if pos <= |data| then data[pos..pos + ReadSize(data, pos, n)] else []
  }

  /** `Vec::insert`, which panics past the end. */
  function Insert(data: Bytes, k: nat, b: bv8): Option<Bytes> {
    if k <= |data| then Some(data[..k] + [b] + data[k..]) else None
  }

  /** The insertion loop of `write`, from byte `i` of the buffer on. */
  function InsertFrom(data: Bytes, pos: nat, buf: Bytes, i: nat): Option<Bytes>
    requires i <= |buf|
    decreases |buf| - i
  {
    if i == |buf| then Some(data)
    else match Insert(data, pos + i, buf[i])
      case None => None
      case Some(data') => InsertFrom(data', pos, buf, i + 1)
  }

  function Splice(data: Bytes, pos: nat, buf: Bytes): Bytes
    requires pos <= |data|
  {
    data[..pos] + buf + data[pos..]
  }

  lemma {:induction false} InsertingSplices(data: Bytes, pos: nat, buf: Bytes, i: nat)
    requires pos <= |data| && i <= |buf|
    ensures InsertFrom(Splice(data, pos, buf[..i]), pos, buf, i) == Some(Splice(data, pos, buf))
    decreases |buf| - i
  {
    var now := Splice(data, pos, buf[..i]);
    if i == |buf| {
      assert buf[..i] == buf;
    } else {
      var next := Splice(data, pos, buf[..i + 1]);
      assert now[..pos + i] == data[..pos] + buf[..i];
      assert now[pos + i..] == data[pos..];
      assert buf[..i + 1] == buf[..i] + [buf[i]];
      assert now[..pos + i] + [buf[i]] + now[pos + i..] == next;
      InsertingSplices(data, pos, buf, i + 1);
    }
  }

  /** `write` succeeds exactly when the position is within the file (or nothing is written), and then
      splices the buffer in at the position. */
  lemma WriteSplices(data: Bytes, pos: nat, buf: Bytes)
    ensures InsertFrom(data, pos, buf, 0).Some? <==> pos <= |data| || buf == []
    ensures pos <= |data| ==> InsertFrom(data, pos, buf, 0) == Some(Splice(data, pos, buf))
  {
    if pos <= |data| {
      assert Splice(data, pos, buf[..0]) == data;
      InsertingSplices(data, pos, buf, 0);
    }
  }

  // ----- any interleaving -----

  datatype Handle = Handle(file: Id, pos: nat)

  datatype Shared = Shared(files: map<Id, Bytes>, handles: seq<Handle>)

  datatype Action = Open(file: Id) | Clone(h: nat) | Read(h: nat, n: nat) | Write(h: nat, buf: Bytes)

  function Data(s: Shared, f: Id): Bytes {
    if f in s.files then s.files[f] else []
  }

  /** The next state, or nothing when the action panics. Acting on a handle that does not exist is no action. */
  function Do(s: Shared, a: Action): Option<Shared> {
    match a
    case Open(f) => Some(s.(handles := s.handles + [Handle(f, 0)]))
    case Clone(h) => Some(if h >= |s.handles| then s else s.(handles := s.handles + [s.handles[h]]))
    case Read(h, n) =>
      if h >= |s.handles| then Some(s)
      else
        var Handle(f, pos) := s.handles[h];
        Some(s.(handles := s.handles[h := Handle(f, pos + ReadSize(Data(s, f), pos, n))]))
    case Write(h, buf) =>
      if h >= |s.handles| then Some(s)
      else
        var Handle(f, pos) := s.handles[h];
        match InsertFrom(Data(s, f), pos, buf, 0)
        case None => None
        case Some(data) => Some(Shared(s.files[f := data], s.handles[h := Handle(f, pos + |buf|)]))
  }

  function DoAll(s: Shared, actions: seq<Action>): Option<Shared>
    decreases |actions|
  {
    if actions == [] then Some(s)
    else match Do(s, actions[0])
      case None => None
      case Some(s') => DoAll(s', actions[1..])
  }

  ghost predicate PositionsInside(s: Shared) {
    forall h | 0 <= h < |s.handles| :: s.handles[h].pos <= |Data(s, s.handles[h].file)|
  }

  lemma ActionStaysInside(s: Shared, a: Action)
    requires PositionsInside(s)
    ensures Do(s, a).Some? && PositionsInside(Do(s, a).value)
  {
    match a
    case Open(_) =>
    case Clone(_) =>
    case Read(_, _) =>
    case Write(h, buf) =>
      if h < |s.handles| {
        var Handle(f, pos) := s.handles[h];
        assert pos <= |Data(s, f)|;
        WriteSplices(Data(s, f), pos, buf);
      }
  }

  /** However handles are opened, cloned, read and written, no insertion is ever out of range and every
      position stays within its file. */
  lemma {:induction false} PositionsStayInside(s: Shared, actions: seq<Action>)
    requires PositionsInside(s)
    ensures DoAll(s, actions).Some? && PositionsInside(DoAll(s, actions).value)
    decreases |actions|
  {
    if actions != [] {
      ActionStaysInside(s, actions[0]);
      PositionsStayInside(Do(s, actions[0]).value, actions[1..]);
    }
  }

  // ----- reading in chunks -----

  function Sum(sizes: seq<nat>): nat {
    if sizes == [] then 0 else sizes[0] + Sum(sizes[1..])
  }

  /** What consecutive reads of the given sizes deliver, put together. */
  function ReadChunks(data: Bytes, pos: nat, sizes: seq<nat>): Bytes
    decreases |sizes|
  {
    if sizes == [] then []
    else ReadAt(data, pos, sizes[0]) + ReadChunks(data, pos + ReadSize(data, pos, sizes[0]), sizes[1..])
  }

  lemma ReadNothing(data: Bytes, pos: nat)
    ensures ReadAt(data, pos, 0) == []
  {
  }

  lemma ReadTwice(data: Bytes, pos: nat, n: nat, k: nat)
    requires pos <= |data|
    ensures pos + ReadSize(data, pos, n) <= |data|
    ensures ReadAt(data, pos, n) + ReadAt(data, pos + ReadSize(data, pos, n), k) == ReadAt(data, pos, n + k)
  {
  }

  /** Whatever the chunk sizes, the chunks put together are the file's bytes in order. */
  lemma {:induction false} ChunksReassemble(data: Bytes, pos: nat, sizes: seq<nat>)
    requires pos <= |data|
    ensures ReadChunks(data, pos, sizes) == ReadAt(data, pos, Sum(sizes))
    decreases |sizes|
  {
    ChunksUnfold(data, pos, sizes);
    hide ReadAt, ReadSize, ReadChunks, Sum;
    if sizes == [] {
      ReadNothing(data, pos);
    } else {
      var n, rest := sizes[0], sizes[1..];
      ReadTwice(data, pos, n, Sum(rest));
      ChunksReassemble(data, pos + ReadSize(data, pos, n), rest);
    }
  }

  lemma ChunksUnfold(data: Bytes, pos: nat, sizes: seq<nat>)
    ensures if sizes == [] then ReadChunks(data, pos, sizes) == [] && Sum(sizes) == 0
            else
              var n, rest := sizes[0], sizes[1..];
              && Sum(sizes) == n + Sum(rest)
              && ReadChunks(data, pos, sizes) ==
                   ReadAt(data, pos, n) + ReadChunks(data, pos + ReadSize(data, pos, n), rest)
  {
    hide ReadAt, ReadSize;
  }

  /** Reading a file from the start until nothing more comes delivers exactly its contents. */
  lemma WholeFile(data: Bytes, sizes: seq<nat>)
    requires Sum(sizes) >= |data|
    ensures ReadChunks(data, 0, sizes) == data
  {
    ChunksReassemble(data, 0, sizes);
    assert data[0..|data|] == data;
  }

  /** What was written through one handle is what a fresh handle reads back. */
  lemma WriteThenRead(data: Bytes, pos: nat, buf: Bytes, sizes: seq<nat>)
    requires pos <= |data| && Sum(sizes) >= |data| + |buf|
    ensures var all := ReadChunks(Splice(data, pos, buf), 0, sizes);
            |all| == |data| + |buf| && all[pos..pos + |buf|] == buf
  {
    WholeFile(Splice(data, pos, buf), sizes);
  }

  // ----- reading while others act -----

  /** The bytes the reads of handle `h` deliver along a run, put together. */
  function Delivered(s: Shared, actions: seq<Action>, h: nat): Bytes
    decreases |actions|
  {
    if actions == [] then []
    else
      var a := actions[0];
      var bytes := if a.Read? && a.h == h < |s.handles|
                   then ReadAt(Data(s, s.handles[h].file), s.handles[h].pos, a.n) else [];
      match Do(s, a)
      case None => bytes
      case Some(s') => bytes + Delivered(s', actions[1..], h)
  }

  /** The number of bytes handle `h` asks for. */
  function Asked(actions: seq<Action>, h: nat): nat {
    if actions == [] then 0
    else (if actions[0].Read? && actions[0].h == h then actions[0].n else 0) + Asked(actions[1..], h)
  }

  /** Along the run nothing is written to file `f`. */
  ghost predicate Undisturbed(s: Shared, actions: seq<Action>, f: Id)
    decreases |actions|
  {
    actions == [] ||
    (&& (actions[0].Write? && actions[0].h < |s.handles| ==> s.handles[actions[0].h].file != f)
     && (Do(s, actions[0]).Some? ==> Undisturbed(Do(s, actions[0]).value, actions[1..], f)))
  }

  lemma OthersLeaveHandle(s: Shared, a: Action, h: nat)
    requires h < |s.handles| && Do(s, a).Some? && PositionsInside(s)
    requires a.Write? && a.h < |s.handles| ==> s.handles[a.h].file != s.handles[h].file
    ensures var s' := Do(s, a).value;
            && h < |s'.handles| && s'.handles[h].file == s.handles[h].file
            && Data(s', s.handles[h].file) == Data(s, s.handles[h].file)
            && s'.handles[h].pos == s.handles[h].pos +
                 (if a.Read? && a.h == h then ReadSize(Data(s, s.handles[h].file), s.handles[h].pos, a.n) else 0)
  {
  }

  lemma DeliveredSteps(s: Shared, actions: seq<Action>, h: nat, f: Id)
    requires actions != [] && h < |s.handles| && Do(s, actions[0]).Some? && Undisturbed(s, actions, f)
    ensures var a, s' := actions[0], Do(s, actions[0]).value;
            && Undisturbed(s', actions[1..], f)
            && (a.Write? && a.h < |s.handles| ==> s.handles[a.h].file != f)
            && Delivered(s, actions, h) ==
                 (if a.Read? && a.h == h then ReadAt(Data(s, s.handles[h].file), s.handles[h].pos, a.n) else [])
                 + Delivered(s', actions[1..], h)
  {
    hide Do, ReadAt, Data;
  }

  lemma NothingDelivered(s: Shared, h: nat)
    ensures Delivered(s, [], h) == []
  {
  }

  /** Whatever other handles do in between, short of writing to the same file, the reads of one handle
      deliver the file's bytes in order from its position. */
  lemma {:induction false} InterleavedReads(s: Shared, actions: seq<Action>, h: nat)
    requires PositionsInside(s) && h < |s.handles| && Undisturbed(s, actions, s.handles[h].file)
    ensures Delivered(s, actions, h) == ReadAt(Data(s, s.handles[h].file), s.handles[h].pos, Asked(actions, h))
    decreases |actions|
  {
    hide ReadAt, ReadSize, Do, Data, Delivered, Undisturbed;
    var Handle(f, pos) := s.handles[h];
    if actions == [] {
      NothingDelivered(s, h);
      ReadNothing(Data(s, f), pos);
    } else {
      var a := actions[0];
      ActionStaysInside(s, a);
      DeliveredSteps(s, actions, h, f);
      OthersLeaveHandle(s, a, h);
      var s' := Do(s, a).value;
      InterleavedReads(s', actions[1..], h);
      if a.Read? && a.h == h {
        assert pos <= |Data(s, f)|;
        ReadTwice(Data(s, f), pos, a.n, Asked(actions[1..], h));
      } else {
        assert [] + Delivered(s', actions[1..], h) == Delivered(s', actions[1..], h);
      }
    }
  }

  // ----- handles -----

  /** A handle just opened reads the file from the start to the end. */
  lemma OpenReadsAll(s: Shared, f: Id, actions: seq<Action>)
    requires PositionsInside(s) && Undisturbed(Do(s, Open(f)).value, actions, f)
    requires Asked(actions, |s.handles|) >= |Data(s, f)|
    ensures Delivered(Do(s, Open(f)).value, actions, |s.handles|) == Data(s, f)
  {
    hide Undisturbed, Delivered, Asked;
    ActionStaysInside(s, Open(f));
    InterleavedReads(Do(s, Open(f)).value, actions, |s.handles|);
  }

  /** A cloned handle reads on from the position of the original, which stays where it is. */
  lemma CloneReadsOn(s: Shared, h: nat, actions: seq<Action>)
    requires PositionsInside(s) && h < |s.handles|
    requires Undisturbed(Do(s, Clone(h)).value, actions, s.handles[h].file)
    ensures Delivered(Do(s, Clone(h)).value, actions, |s.handles|) ==
            ReadAt(Data(s, s.handles[h].file), s.handles[h].pos, Asked(actions, |s.handles|))
    ensures Delivered(Do(s, Clone(h)).value, actions, h) ==
            ReadAt(Data(s, s.handles[h].file), s.handles[h].pos, Asked(actions, h))
  {
    hide Undisturbed, Delivered, Asked, ReadAt;
    ActionStaysInside(s, Clone(h));
    InterleavedReads(Do(s, Clone(h)).value, actions, |s.handles|);
    InterleavedReads(Do(s, Clone(h)).value, actions, h);
  }

  lemma WriteDoes(s: Shared, h: nat, buf: Bytes)
    requires h < |s.handles| && s.handles[h].pos <= |Data(s, s.handles[h].file)|
    ensures var Handle(f, pos) := s.handles[h];
            Do(s, Write(h, buf)) ==
            Some(Shared(s.files[f := Splice(Data(s, f), pos, buf)], s.handles[h := Handle(f, pos + |buf|)]))
  {
    WriteSplices(Data(s, s.handles[h].file), s.handles[h].pos, buf);
  }

  lemma SpliceJoins(data: Bytes, pos: nat, a: Bytes, b: Bytes)
    requires pos <= |data|
    ensures Splice(Splice(data, pos, a), pos + |a|, b) == Splice(data, pos, a + b)
  {
    var first := Splice(data, pos, a);
    assert first[..pos + |a|] == data[..pos] + a && first[pos + |a|..] == data[pos..];
  }

  /** Writing twice through a handle is writing once what both write. */
  lemma WritesJoin(s: Shared, h: nat, a: Bytes, b: Bytes)
    requires PositionsInside(s) && h < |s.handles|
    ensures DoAll(s, [Write(h, a), Write(h, b)]) == Do(s, Write(h, a + b))
  {
    hide Splice, Do, DoAll;
    var Handle(f, pos) := s.handles[h];
    assert pos <= |Data(s, f)|;
    WriteDoes(s, h, a);
    WriteDoes(s, h, a + b);
    var s1 := Do(s, Write(h, a)).value;
    SplicedLength(Data(s, f), pos, a);
    WriteDoes(s1, h, b);
    SpliceJoins(Data(s, f), pos, a, b);
    DoTwo(s, Write(h, a), s1, Write(h, b));
    assert s1.handles[h := Handle(f, pos + |a| + |b|)] == s.handles[h := Handle(f, pos + |a + b|)];
    var data := Splice(Data(s, f), pos, a + b);
    assert s1.files[f := data] == s.files[f := data];
  }

  lemma SplicedLength(data: Bytes, pos: nat, buf: Bytes)
    requires pos <= |data|
    ensures |Splice(data, pos, buf)| == |data| + |buf|
  {
  }

  lemma DoTwo(s: Shared, a: Action, s1: Shared, b: Action)
    requires Do(s, a) == Some(s1)
    ensures DoAll(s, [a, b]) == Do(s1, b)
  {
    hide Do;
    assert [a, b][1..] == [b] && [b][1..] == [];
    if Do(s1, b).Some? {
      assert DoAll(Do(s1, b).value, []) == Do(s1, b);
    }
    assert DoAll(s1, [b]) == Do(s1, b);
  }

  /** After writing, a handle reads what it would have read before. */
  lemma ReadAfterWrite(s: Shared, h: nat, buf: Bytes, n: nat)
    requires PositionsInside(s) && h < |s.handles|
    ensures Do(s, Write(h, buf)).Some?
    ensures var s' := Do(s, Write(h, buf)).value;
            && |s'.handles| == |s.handles| && s'.handles[h].file == s.handles[h].file
            && ReadAt(Data(s', s'.handles[h].file), s'.handles[h].pos, n) ==
               ReadAt(Data(s, s.handles[h].file), s.handles[h].pos, n)
  {
    hide Do;
    var Handle(f, pos) := s.handles[h];
    assert pos <= |Data(s, f)|;
    WriteDoes(s, h, buf);
    assert Splice(Data(s, f), pos, buf)[pos + |buf|..] == Data(s, f)[pos..];
  }

  /** An action moves no handle but the one it goes through, and changes no file but the one it writes to. */
  lemma OthersStay(s: Shared, a: Action, h: nat, f: Id)
    requires PositionsInside(s) && h < |s.handles|
    ensures Do(s, a).Some?
    ensures var s' := Do(s, a).value;
            && (((a.Read? || a.Write?) && a.h == h) || (h < |s'.handles| && s'.handles[h] == s.handles[h]))
            && (Data(s', f) == Data(s, f) || (a.Write? && a.h < |s.handles| && s.handles[a.h].file == f))
  {
    ActionStaysInside(s, a);
  }
}
