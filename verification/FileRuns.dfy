/** Any run of calls to the file system, over any number of inodes (src/filesys/inode.c). */
module FileRuns {
  import opened Inodes
  import opened MachineIntegers
  import opened Options
  import opened Sectors
  import opened Space
  import opened Volumes

  // ----- the file system as a program sees it ----------------------------------------------------------

  datatype Handle = Handle(count: nat, removed: bool, deny: nat)

  /** Files, open inodes and the number of free sectors. */
  datatype State = State(files: map<nat, seq<byte>>, open: map<nat, Handle>, free: nat)

  datatype FileOp =
    | ReadOp(f: nat, size: nat, offset: nat)
    | WriteOp(f: nat, data: seq<byte>, offset: nat)
    | CreateOp(length: u32)
    | OpenOp(f: nat)
    | RemoveOp(f: nat)
    | CloseOp(f: nat)
    | DenyOp(f: nat)
    | AllowOp(f: nat)

  datatype Answer = Bytes(bytes: seq<byte>) | Count(n: nat) | Made(f: nat) | Done | Refused

  /** Files have at most MAX_BYTES bytes. */
  predicate InBounds(op: FileOp) {
    match op
    case WriteOp(f, data, offset) => offset + |data| <= MAX_BYTES
    case CreateOp(length) => length <= MAX_BYTES
    case _ => true
  }

  /** Only open inodes are used, and only live files opened; write denials come in pairs. */
  predicate Applies(a: State, op: FileOp) {
    match op
    case CreateOp(length) => true
    case OpenOp(f) => f in a.files
    case DenyOp(f) => f in a.open && f in a.files && a.open[f].deny < a.open[f].count
    case AllowOp(f) => f in a.open && f in a.files && 0 < a.open[f].deny <= a.open[f].count
    case _ => op.f in a.open && op.f in a.files
  }

  /** The free sectors after a write that may grow the file, and whether it can. */
  function Growth(a: State, f: nat, end: nat): (bool, nat)
    requires f in a.files
  {
    Grow(a.free, SectorCount(|a.files[f]|), SectorCount(end))
  }

  predicate Accepts(a: State, op: FileOp)
    requires op.WriteOp? && Applies(a, op)
  {
    a.open[op.f].deny == 0 && Growth(a, op.f, op.offset + |op.data|).0
  }

  predicate Creates(a: State, op: FileOp, memory: bool) {
    op.CreateOp? && memory && a.free >= 1 + Footprint(SectorCount(op.length))
  }

  /** The last close of a removed inode. */
  predicate Deletes(a: State, op: FileOp) {
    op.CloseOp? && Applies(a, op) && a.open[op.f].count <= 1 && a.open[op.f].removed
  }

  function Wrote(a: State, op: FileOp, memory: bool): State
    requires op.WriteOp? && Applies(a, op)
  {
    if a.open[op.f].deny > 0 then a
    else
      var (ok, left) := Growth(a, op.f, op.offset + |op.data|);
      if ok then
        a.(files := a.files[op.f := Patched(a.files[op.f], op.offset, op.data, Accepted(|op.data|, op.offset, memory))], free := left)
      else a.(free := left)
  }

  function Closed(a: State, f: nat): State
    requires Applies(a, CloseOp(f))
  {
    var h := a.open[f];
    if h.count > 1 then a.(open := a.open[f := h.(count := h.count - 1)])
    else if !h.removed then a.(open := a.open - {f})
    else State(a.files - {f}, a.open - {f}, a.free + 1 + Footprint(SectorCount(|a.files[f]|)))
  }

  /** What a call does.  MEMORY is whether the kernel has memory for it; PLACE is the sector a new file gets,
      which is all that the state leaves open. */
  function Next(a: State, op: FileOp, memory: bool, place: nat): State {
    if !Applies(a, op) then a
    else
      match op
      case ReadOp(f, size, offset) => a
      case WriteOp(f, data, offset) => Wrote(a, op, memory)
      case CreateOp(length) =>
        if Creates(a, op, memory) then
          a.(files := a.files[place := ZeroPad([], length)], free := a.free - 1 - Footprint(SectorCount(length)))
        else a.(free := FreeAfterCreate(a.free, SectorCount(length), memory))
      case OpenOp(f) =>
        if f in a.open then a.(open := a.open[f := a.open[f].(count := a.open[f].count + 1)])
        else if memory then a.(open := a.open[f := Handle(1, false, 0)])
        else a
      case RemoveOp(f) => a.(open := a.open[f := a.open[f].(removed := true)])
      case CloseOp(f) => Closed(a, f)
      case DenyOp(f) => a.(open := a.open[f := a.open[f].(deny := a.open[f].deny + 1)])
      case AllowOp(f) => a.(open := a.open[f := a.open[f].(deny := a.open[f].deny - 1)])
  }

  function AnswerOf(a: State, op: FileOp, memory: bool, place: nat): Answer {
    if !Applies(a, op) then Refused
    else
      match op
      case ReadOp(f, size, offset) =>
        var window := Window(a.files[f], offset, size);
        Bytes(window[..Accepted(|window|, offset, memory)])
      case WriteOp(f, data, offset) => Count(if Accepts(a, op) then Accepted(|data|, offset, memory) else 0)
      case CreateOp(length) => if Creates(a, op, memory) then Made(place) else Refused
      case OpenOp(f) => if f in a.open || memory then Done else Refused
      case _ => Done
  }

  /** The call does not fail for lack of space. */
  predicate HasSpace(a: State, op: FileOp, memory: bool) {
    match op
    case WriteOp(f, data, offset) => Applies(a, op) && a.open[f].deny == 0 ==> Growth(a, f, offset + |data|).0
    case CreateOp(length) => memory ==> Creates(a, op, memory)
    case _ => true
  }

  /** The call grows or deletes G. */
  predicate Touches(a: State, op: FileOp, g: nat) {
    (op.WriteOp? && op.f == g) || (Deletes(a, op) && op.f == g)
  }

  // ----- runs --------------------------------------------------------------------------------------------

  function After(a: State, ops: seq<FileOp>, memory: nat -> bool, place: seq<nat>): State
    requires |place| == |ops|
  {
    if ops == [] then a
    else
      var n := |ops| - 1;
      Next(After(a, ops[..n], memory, place[..n]), ops[n], memory(n), place[n])
  }

  function Answers(a: State, ops: seq<FileOp>, memory: nat -> bool, place: seq<nat>): seq<Answer>
    requires |place| == |ops|
  {
    if ops == [] then []
    else
      var n := |ops| - 1;
      Answers(a, ops[..n], memory, place[..n]) + [AnswerOf(After(a, ops[..n], memory, place[..n]), ops[n], memory(n), place[n])]
  }

  /** The state before call I. */
  function Before(a: State, ops: seq<FileOp>, memory: nat -> bool, place: seq<nat>, i: nat): State
    requires |place| == |ops| && i <= |ops|
  {
    After(a, ops[..i], memory, place[..i])
  }

  /** New files get sectors that no file has. */
  ghost predicate AllFresh(a: State, ops: seq<FileOp>, memory: nat -> bool, place: seq<nat>)
    requires |place| == |ops|
  {
    forall i :: 0 <= i < |ops| && Creates(Before(a, ops, memory, place, i), ops[i], memory(i)) ==>
      place[i] !in Before(a, ops, memory, place, i).files
  }

  ghost predicate AlwaysSpace(a: State, ops: seq<FileOp>, memory: nat -> bool, place: seq<nat>)
    requires |place| == |ops|
  {
    forall i :: 0 <= i < |ops| ==> HasSpace(Before(a, ops, memory, place, i), ops[i], memory(i))
  }

  ghost predicate NeverTouched(a: State, ops: seq<FileOp>, memory: nat -> bool, place: seq<nat>, g: nat)
    requires |place| == |ops|
  {
    forall i :: 0 <= i < |ops| ==> !Touches(Before(a, ops, memory, place, i), ops[i], g)
  }

  lemma Earlier(a: State, ops: seq<FileOp>, memory: nat -> bool, place: seq<nat>, x: nat, i: nat)
    requires |place| < |ops| && i <= |place|
    ensures var n := |place|; Before(a, ops[..n + 1], memory, place + [x], i) == Before(a, ops[..n], memory, place, i)
  {
    var n := |place|;
    assert ops[..n + 1][..i] == ops[..n][..i] && (place + [x])[..i] == place[..i];
  }

  lemma PlayedMore(a: State, ops: seq<FileOp>, memory: nat -> bool, place: seq<nat>, x: nat)
    requires |place| < |ops|
    ensures var n := |place|;
      && After(a, ops[..n + 1], memory, place + [x]) == Next(After(a, ops[..n], memory, place), ops[n], memory(n), x)
      && Answers(a, ops[..n + 1], memory, place + [x]) ==
           Answers(a, ops[..n], memory, place) + [AnswerOf(After(a, ops[..n], memory, place), ops[n], memory(n), x)]
  {
    hide Next, AnswerOf;
    var n := |place|;
    assert ops[..n + 1][..n] == ops[..n] && (place + [x])[..n] == place;
  }

  lemma FreshMore(a: State, ops: seq<FileOp>, memory: nat -> bool, place: seq<nat>, x: nat)
    requires |place| < |ops|
    ensures var n := |place|;
      var b := After(a, ops[..n], memory, place);
      && (AllFresh(a, ops[..n], memory, place) && (Creates(b, ops[n], memory(n)) ==> x !in b.files) ==>
            AllFresh(a, ops[..n + 1], memory, place + [x]))
      && (AlwaysSpace(a, ops[..n + 1], memory, place + [x]) ==> AlwaysSpace(a, ops[..n], memory, place) && HasSpace(b, ops[n], memory(n)))
  {
    hide Next, Creates, HasSpace, Before, After;
    var n := |place|;
    Here(a, ops, memory, place, x);
    forall i | 0 <= i < n
      ensures Before(a, ops[..n + 1], memory, place + [x], i) == Before(a, ops[..n], memory, place, i)
    {
      Earlier(a, ops, memory, place, x, i);
    }
  }

  lemma Here(a: State, ops: seq<FileOp>, memory: nat -> bool, place: seq<nat>, x: nat)
    requires |place| < |ops|
    ensures var n := |place|; Before(a, ops[..n + 1], memory, place + [x], n) == After(a, ops[..n], memory, place)
  {
    hide After;
    var n := |place|;
    assert ops[..n + 1][..n] == ops[..n] && (place + [x])[..n] == place;
  }

  lemma TouchedMore(a: State, ops: seq<FileOp>, memory: nat -> bool, place: seq<nat>, x: nat, g: nat)
    requires |place| < |ops|
    ensures var n := |place|;
      NeverTouched(a, ops[..n + 1], memory, place + [x], g) ==>
        NeverTouched(a, ops[..n], memory, place, g) && !Touches(After(a, ops[..n], memory, place), ops[n], g)
  {
    hide Next, Touches, Before, After;
    var n := |place|;
    Here(a, ops, memory, place, x);
    forall i | 0 <= i < n
      ensures Before(a, ops[..n + 1], memory, place + [x], i) == Before(a, ops[..n], memory, place, i)
    {
      Earlier(a, ops, memory, place, x, i);
    }
  }

  // ----- files hold what was written to them -----------------------------------------------------------------

  /** Call N of the run is a write to F that F accepts. */
  predicate Writes(a: State, ops: seq<FileOp>, memory: nat -> bool, place: seq<nat>, n: nat, f: nat)
    requires |place| == |ops| && n < |ops|
  {
    var b := Before(a, ops, memory, place, n);
    ops[n].WriteOp? && ops[n].f == f && Applies(b, ops[n]) && Accepts(b, ops[n])
  }

  /** It makes F. */
  predicate Makes(a: State, ops: seq<FileOp>, memory: nat -> bool, place: seq<nat>, n: nat, f: nat)
    requires |place| == |ops| && n < |ops|
  {
    Creates(Before(a, ops, memory, place, n), ops[n], memory(n)) && place[n] == f
  }

  /** The length of F after the run: as far as any write reached since F was made, or as long as it was made. */
  function LengthOf(a: State, ops: seq<FileOp>, memory: nat -> bool, place: seq<nat>, f: nat): nat
    requires |place| == |ops|
    decreases |ops|
  {
    if ops == [] then if f in a.files then |a.files[f]| else 0
    else
      var n := |ops| - 1;
      var length := LengthOf(a, ops[..n], memory, place[..n], f);
      if Makes(a, ops, memory, place, n, f) then ops[n].length
      else if Writes(a, ops, memory, place, n, f) && length < ops[n].offset + |ops[n].data| then ops[n].offset + |ops[n].data|
      else length
  }

  /** Byte P of F after the run: the one that the last write to reach P put there since F was made; else the one there
      was at the start; else zero. */
  function ByteOf(a: State, ops: seq<FileOp>, memory: nat -> bool, place: seq<nat>, f: nat, p: nat): byte
    requires |place| == |ops|
    decreases |ops|
  {
    if ops == [] then if f in a.files && p < |a.files[f]| then a.files[f][p] else 0
    else
      var n := |ops| - 1;
      if Makes(a, ops, memory, place, n, f) then 0
      else if Writes(a, ops, memory, place, n, f) && ops[n].offset <= p < ops[n].offset + Accepted(|ops[n].data|, ops[n].offset, memory(n)) then
        ops[n].data[p - ops[n].offset]
      else ByteOf(a, ops[..n], memory, place[..n], f, p)
  }

  /** BYTES is what the writes of the run make of F. */
  ghost predicate Recalls(a: State, ops: seq<FileOp>, memory: nat -> bool, place: seq<nat>, f: nat, bytes: seq<byte>)
    requires |place| == |ops|
  {
    |bytes| == LengthOf(a, ops, memory, place, f) && forall p :: 0 <= p < |bytes| ==> bytes[p] == ByteOf(a, ops, memory, place, f, p)
  }

  /** One call changes the bytes of F only if it is a write that F accepts, or makes F. */
  lemma NextBytes(b: State, op: FileOp, memory: bool, place: nat, f: nat)
    requires f in Next(b, op, memory, place).files
    ensures var c := Next(b, op, memory, place);
      if Creates(b, op, memory) && place == f then |c.files[f]| == op.length && forall p :: 0 <= p < op.length ==> c.files[f][p] == 0
      else if op.WriteOp? && op.f == f && Applies(b, op) && Accepts(b, op) then
        Overwritten(b.files[f], c.files[f], op.offset, op.data, Accepted(|op.data|, op.offset, memory))
      else f in b.files && c.files[f] == b.files[f]
  {
    hide Grow, Footprint, Patched, Accepted, Overwritten;
    if op.WriteOp? && op.f == f && Applies(b, op) && Accepts(b, op) {
      PatchedBytes(b.files[f], op.offset, op.data, Accepted(|op.data|, op.offset, memory));
    }
  }

  /** The state before the last call. */
  lemma BeforeLast(a: State, ops: seq<FileOp>, memory: nat -> bool, place: seq<nat>)
    requires |place| == |ops| > 0
    ensures var n := |ops| - 1; var b := Before(a, ops, memory, place, n);
      b == After(a, ops[..n], memory, place[..n]) && After(a, ops, memory, place) == Next(b, ops[n], memory(n), place[n])
  {
    hide Next;
  }

  /** Nothing was written past the end. */
  lemma {:induction false} BeyondEnd(a: State, ops: seq<FileOp>, memory: nat -> bool, place: seq<nat>, f: nat, p: nat)
    requires |place| == |ops| && p >= LengthOf(a, ops, memory, place, f)
    ensures ByteOf(a, ops, memory, place, f, p) == 0
    decreases |ops|
  {
    hide Makes, Writes, Accepted;
    if ops != [] {
      var n := |ops| - 1;
      if !Makes(a, ops, memory, place, n, f) {
        BeyondEnd(a, ops[..n], memory, place[..n], f, p);
      }
    }
  }

  lemma WriteFacts(a: State, ops: seq<FileOp>, memory: nat -> bool, place: seq<nat>, n: nat, f: nat)
    requires |place| == |ops| && n < |ops| && Writes(a, ops, memory, place, n, f)
    ensures ops[n].WriteOp? && !Makes(a, ops, memory, place, n, f) && !Creates(Before(a, ops, memory, place, n), ops[n], memory(n))
    ensures f in Before(a, ops, memory, place, n).files
  {
    hide Before;
  }

  /** The last call is a write that F accepts. */
  lemma WriteRecalls(a: State, ops: seq<FileOp>, memory: nat -> bool, place: seq<nat>, f: nat, was: seq<byte>, bytes: seq<byte>)
    requires |place| == |ops| > 0 && Writes(a, ops, memory, place, |ops| - 1, f)
    requires Recalls(a, ops[..|ops| - 1], memory, place[..|ops| - 1], f, was)
    requires var op, n := ops[|ops| - 1], |ops| - 1; Overwritten(was, bytes, op.offset, op.data, Accepted(|op.data|, op.offset, memory(n)))
    ensures Recalls(a, ops, memory, place, f, bytes)
  {
    hide Makes, Writes, Accepted;
    var n := |ops| - 1;
    WriteFacts(a, ops, memory, place, n, f);
    assert |bytes| == LengthOf(a, ops, memory, place, f);
    forall p | 0 <= p < |bytes|
      ensures bytes[p] == ByteOf(a, ops, memory, place, f, p)
    {
      if p >= |was| {
        BeyondEnd(a, ops[..n], memory, place[..n], f, p);
      }
    }
  }

  /** After any run every file holds exactly what was written to it. */
  lemma {:induction false} FilesRecall(a: State, ops: seq<FileOp>, memory: nat -> bool, place: seq<nat>, f: nat)
    requires |place| == |ops| && f in After(a, ops, memory, place).files
    ensures Recalls(a, ops, memory, place, f, After(a, ops, memory, place).files[f])
    decreases |ops|
  {
    hide Next, After, Before, Creates, Applies, Accepts, Accepted, Overwritten;
    if ops == [] {
      NoOps(a, memory);
    } else {
      var n := |ops| - 1;
      BeforeLast(a, ops, memory, place);
      var b := After(a, ops[..n], memory, place[..n]);
      NextBytes(b, ops[n], memory(n), place[n], f);
      if f in b.files {
        FilesRecall(a, ops[..n], memory, place[..n], f);
      }
      if Writes(a, ops, memory, place, n, f) {
        WriteFacts(a, ops, memory, place, n, f);
        WriteRecalls(a, ops, memory, place, f, b.files[f], After(a, ops, memory, place).files[f]);
      }
    }
  }

  lemma NoOps(a: State, memory: nat -> bool)
    ensures After(a, [], memory, []) == a
  {
  }

  /** And every read of the run gives what was written before. */
  lemma ReadsRecall(a: State, ops: seq<FileOp>, memory: nat -> bool, place: seq<nat>, i: nat)
    requires |place| == |ops| && i < |ops| && ops[i].ReadOp? && Applies(Before(a, ops, memory, place, i), ops[i])
    ensures |Answers(a, ops, memory, place)| == |ops|
    ensures var r, f, offset := Answers(a, ops, memory, place)[i], ops[i].f, ops[i].offset;
      && r.Bytes? && Transferred(Avail(LengthOf(a, ops[..i], memory, place[..i], f), offset, ops[i].size), offset, |r.bytes|, memory(i))
      && forall j :: 0 <= j < |r.bytes| ==> r.bytes[j] == ByteOf(a, ops[..i], memory, place[..i], f, offset + j)
  {
    hide After, Next, AnswerOf, LengthOf, ByteOf, Transferred, Window, Accepted;
    AnswerAt(a, ops, memory, place, i);
    var b, f := Before(a, ops, memory, place, i), ops[i].f;
    FilesRecall(a, ops[..i], memory, place[..i], f);
    WindowRead(b.files[f], ops[i].offset, ops[i].size, memory(i));
    ReadAnswer(b, ops[i], memory(i), place[i]);
  }

  lemma ReadAnswer(b: State, op: FileOp, memory: bool, place: nat)
    requires op.ReadOp? && Applies(b, op)
    ensures var r := AnswerOf(b, op, memory, place); r.Bytes? && Reads(b.files[op.f], op.offset, op.size, memory, r.bytes)
  {
    hide Window, Accepted, Reads;
    WindowRead(b.files[op.f], op.offset, op.size, memory);
  }

  lemma {:induction false} AnswerAt(a: State, ops: seq<FileOp>, memory: nat -> bool, place: seq<nat>, i: nat)
    requires |place| == |ops| && i < |ops|
    ensures |Answers(a, ops, memory, place)| == |ops|
    ensures Answers(a, ops, memory, place)[i] == AnswerOf(Before(a, ops, memory, place, i), ops[i], memory(i), place[i])
    decreases |ops|
  {
    hide After, AnswerOf;
    var n := |ops| - 1;
    if i < n {
      AnswerAt(a, ops[..n], memory, place[..n], i);
      assert ops[..n][..i] == ops[..i] && place[..n][..i] == place[..i];
    } else if n > 0 {
      AnswerAt(a, ops[..n], memory, place[..n], 0);
    }
  }

  // ----- sectors are conserved ---------------------------------------------------------------------------

  function SectorsOf(bytes: seq<byte>): nat {
    1 + Footprint(SectorCount(|bytes|))
  }

  /** The sectors all files take up. */
  ghost function InUse(files: map<nat, seq<byte>>): nat
    decreases |files.Keys|
  {
    if files == map[] then 0
    else
      var f :| f in files;
      assert (files - {f}).Keys == files.Keys - {f};
      SectorsOf(files[f]) + InUse(files - {f})
  }

  lemma {:induction false} InUseWithout(files: map<nat, seq<byte>>, f: nat)
    requires f in files
    ensures InUse(files) == SectorsOf(files[f]) + InUse(files - {f})
    decreases |files.Keys|
  {
    hide SectorsOf;
    var g :| g in files && InUse(files) == SectorsOf(files[g]) + InUse(files - {g});
    if g != f {
      assert (files - {g}).Keys == files.Keys - {g};
      InUseWithout(files - {g}, f);
      assert files - {g} - {f} == files - {f} - {g};
      assert (files - {f}).Keys == files.Keys - {f};
      InUseWithout(files - {f}, g);
    }
  }

  lemma InUseWith(files: map<nat, seq<byte>>, f: nat, bytes: seq<byte>)
    ensures InUse(files[f := bytes]) == SectorsOf(bytes) + InUse(files - {f})
  {
    hide SectorsOf, InUse;
    InUseWithout(files[f := bytes], f);
    assert files[f := bytes] - {f} == files - {f};
  }

  /** A call that does not fail for lack of space moves sectors between the free ones and files. */
  lemma NextConserves(a: State, op: FileOp, memory: bool, place: nat)
    requires HasSpace(a, op, memory) && (Creates(a, op, memory) ==> place !in a.files)
    ensures var b := Next(a, op, memory, place); b.free + InUse(b.files) == a.free + InUse(a.files)
  {
    hide InUse, Footprint, Grow, Patched, Accepted;
    if op.WriteOp? && Applies(a, op) && Accepts(a, op) {
      WriteConserves(a, op, memory);
    } else if Creates(a, op, memory) {
      CreateConserves(a, op.length, place);
    } else if op.CloseOp? && Applies(a, op) {
      InUseWithout(a.files, op.f);
    }
  }

  lemma WriteConserves(a: State, op: FileOp, memory: bool)
    requires op.WriteOp? && Applies(a, op) && Accepts(a, op)
    ensures var b := Wrote(a, op, memory); b.free + InUse(b.files) == a.free + InUse(a.files)
  {
    hide InUse, Footprint, Grow, Patched, Accepted;
    var bytes := Patched(a.files[op.f], op.offset, op.data, Accepted(|op.data|, op.offset, memory));
    var from, to := SectorCount(|a.files[op.f]|), SectorCount(op.offset + |op.data|);
    PatchedLength(a.files[op.f], op.offset, op.data, Accepted(|op.data|, op.offset, memory));
    InUseWithout(a.files, op.f);
    InUseWith(a.files, op.f, bytes);
    GrowFits(a.free, from, to);
    if from <= to {
      GrowExact(a.free, from, to);
    }
  }

  lemma CreateConserves(a: State, length: u32, place: nat)
    requires place !in a.files && a.free >= 1 + Footprint(SectorCount(length))
    ensures var b := a.(files := a.files[place := ZeroPad([], length)], free := a.free - 1 - Footprint(SectorCount(length)));
      b.free + InUse(b.files) == a.free + InUse(a.files)
  {
    hide InUse, Footprint, ZeroPad;
    InUseWith(a.files, place, ZeroPad([], length));
    assert a.files - {place} == a.files;
  }

  lemma PatchedLength(bytes: seq<byte>, offset: nat, data: seq<byte>, written: nat)
    requires written <= |data|
    ensures |Patched(bytes, offset, data, written)| == Larger(|bytes|, offset + |data|)
  {
  }

  /** In a run in which nothing fails for lack of space, free sectors and the sectors of files add up to the
      same number: what a file took is there again once it is deleted. */
  lemma {:induction false} RunConserves(a: State, ops: seq<FileOp>, memory: nat -> bool, place: seq<nat>)
    requires |place| == |ops| && AllFresh(a, ops, memory, place) && AlwaysSpace(a, ops, memory, place)
    ensures var b := After(a, ops, memory, place); b.free + InUse(b.files) == a.free + InUse(a.files)
    decreases |ops|
  {
    hide InUse, Next, HasSpace, Creates, AllFresh, AlwaysSpace, Before;
    if ops != [] {
      var n := |ops| - 1;
      AllButLast(a, ops, memory, place);
      RunConserves(a, ops[..n], memory, place[..n]);
      NextConserves(After(a, ops[..n], memory, place[..n]), ops[n], memory(n), place[n]);
    }
  }

  lemma AllButLast(a: State, ops: seq<FileOp>, memory: nat -> bool, place: seq<nat>)
    requires |place| == |ops| > 0 && AllFresh(a, ops, memory, place) && AlwaysSpace(a, ops, memory, place)
    ensures var n := |ops| - 1;
      var b := After(a, ops[..n], memory, place[..n]);
      && AllFresh(a, ops[..n], memory, place[..n]) && AlwaysSpace(a, ops[..n], memory, place[..n])
      && HasSpace(b, ops[n], memory(n)) && (Creates(b, ops[n], memory(n)) ==> place[n] !in b.files)
  {
    hide After, HasSpace, Creates;
    var n := |ops| - 1;
    assert ops[..n + 1] == ops && place[..n] + [place[n]] == place;
    Here(a, ops, memory, place[..n], place[n]);
    forall i | 0 <= i < n
      ensures Before(a, ops[..n], memory, place[..n], i) == Before(a, ops, memory, place, i)
    {
      Earlier(a, ops, memory, place[..n], place[n], i);
    }
  }

  // ----- the file system does that -------------------------------------------------------------------------

  ghost function Handles(open: map<nat, OpenInode>): map<nat, Handle> {
    map f | f in open :: Handle(open[f].openCnt, open[f].removed, open[f].denyWriteCnt)
  }

  lemma HandlesSet(open: map<nat, OpenInode>, f: nat, o: OpenInode)
    ensures Handles(open[f := o]) == Handles(open)[f := Handle(o.openCnt, o.removed, o.denyWriteCnt)]
    ensures Handles(open - {f}) == Handles(open) - {f}
  {
  }

  /** The abstract value. */
  ghost function Abs(v: Volume, open: map<nat, OpenInode>, bits: seq<bool>): State {
    State(v.Files(), Handles(open), Unmarked(bits))
  }

  ghost function AbsOf(fs: FileSystem): State
    requires fs.freeMap.Valid()
    reads fs, fs.freeMap, fs.freeMap.bits
  {
    Abs(fs.V(), fs.open, fs.freeMap.Bits())
  }

  /** Sectors marked but not owned stay so, and there are no new ones unless a call ran out of space; a file
      owns the same sectors unless the call touches it. */
  ghost predicate Accounted(v: Volume, bits: seq<bool>, w: Volume, bits': seq<bool>, a: State, op: FileOp, memory: bool) {
    && (forall s :: Stray(bits, v.owner, s) ==> Stray(bits', w.owner, s))
    && (HasSpace(a, op, memory) ==> forall s :: Stray(bits', w.owner, s) ==> Stray(bits, v.owner, s))
    && (forall g :: g in v.nodes && !Touches(a, op, g) ==> g in w.nodes && w.OwnedBy(g) == v.OwnedBy(g))
  }

  lemma NothingMoved(v: Volume, bits: seq<bool>, w: Volume, a: State, op: FileOp, memory: bool)
    requires w.owner == v.owner && w.nodes.Keys == v.nodes.Keys
    ensures Accounted(v, bits, w, bits, a, op, memory)
  {
  }

  lemma OwnedSame(v: Volume, w: Volume, f: nat)
    requires OwnerAdds(v.owner, w.owner, f)
    ensures forall g :: g != f ==> w.OwnedBy(g) == v.OwnedBy(g)
  {
  }

  lemma WriteAccounted(v: Volume, bits: seq<bool>, w: Volume, bits': seq<bool>, a: State, op: FileOp, memory: bool, grown: bool)
    requires op.WriteOp? && Applies(a, op) && w.nodes.Keys == v.nodes.Keys && (grown <==> Accepts(a, op))
    requires grown ==> OwnerAdds(v.owner, w.owner, op.f) && forall s :: Stray(bits', w.owner, s) == Stray(bits, v.owner, s)
    requires !grown ==> w.owner == v.owner && forall s :: Stray(bits, v.owner, s) ==> Stray(bits', w.owner, s)
    requires a.open[op.f].deny > 0 ==> bits' == bits
    ensures Accounted(v, bits, w, bits', a, op, memory)
  {
    hide Grow, Stray, OwnerAdds;
    if grown {
      OwnedSame(v, w, op.f);
    }
  }

  lemma CreateAccounted(v: Volume, bits: seq<bool>, w: Volume, bits': seq<bool>, a: State, op: FileOp, memory: bool, r: Option<nat>)
    requires op.CreateOp? && (r.Some? <==> Creates(a, op, memory)) && (!memory ==> bits' == bits)
    requires r.Some? ==> r.value !in v.nodes && v.nodes.Keys <= w.nodes.Keys && OwnerAdds(v.owner, w.owner, r.value)
    requires r.Some? ==> forall s :: Stray(bits', w.owner, s) == Stray(bits, v.owner, s)
    requires r.None? ==> w.owner == v.owner && w.nodes == v.nodes && forall s :: Stray(bits, v.owner, s) ==> Stray(bits', w.owner, s)
    ensures Accounted(v, bits, w, bits', a, op, memory)
  {
    hide Footprint, Stray, OwnerAdds;
    if r.Some? {
      OwnedSame(v, w, r.value);
    }
  }

  lemma DeleteAccounted(v: Volume, bits: seq<bool>, w: Volume, bits': seq<bool>, a: State, op: FileOp, memory: bool)
    requires op.CloseOp? && Deletes(a, op) && w.nodes == v.nodes - {op.f} && w.owner == v.owner - v.OwnedBy(op.f)
    requires |bits'| == |bits| && forall s :: 0 <= s < |bits| ==> bits'[s] == (bits[s] && s !in v.OwnedBy(op.f))
    ensures Accounted(v, bits, w, bits', a, op, memory)
  {
  }

  lemma FileFacts(fs: FileSystem, f: nat)
    requires fs.Valid() && f in fs.open
    ensures f in fs.nodes && f in fs.V().Files() && fs.V().Files()[f] == fs.V().Contents(f) && f in Handles(fs.open)
    ensures |fs.V().Contents(f)| == fs.nodes[f].length == fs.open[f].data.length && fs.open[f].openCnt > 0
    ensures Handles(fs.open)[f] == Handle(fs.open[f].openCnt, fs.open[f].removed, fs.open[f].denyWriteCnt)
  {
    hide Saved, Volume.Valid, Volume.Contents, AllUsed;
  }

  lemma LiveFacts(v: Volume, open: map<nat, OpenInode>)
    requires Mirrors(open, v.nodes)
    ensures v.Files().Keys == v.nodes.Keys && Handles(open).Keys == open.Keys && open.Keys <= v.nodes.Keys
  {
    hide Volume.Contents;
  }

  method CallWrite(fs: FileSystem, op: FileOp, memory: bool) returns (answer: Answer)
    requires fs.Valid() && InBounds(op) && op.WriteOp? && op.f in fs.open && Applies(AbsOf(fs), op)
    modifies fs`disk, fs`open, fs`nodes, fs`owner, fs.freeMap.bits
    ensures fs.Valid() && AbsOf(fs) == Next(old(AbsOf(fs)), op, memory, 0) && answer == AnswerOf(old(AbsOf(fs)), op, memory, 0)
    ensures Accounted(old(fs.V()), old(fs.freeMap.Bits()), fs.V(), fs.freeMap.Bits(), old(AbsOf(fs)), op, memory)
  {
    hide Saved, Mirrors, AllUsed, Patched, ZeroPad, Grow, Footprint, Unmarked, Handles, Stray, OwnerAdds, Accounted,
      Volume.Files, Volume.Valid, Volume.Contents;
    ghost var v, bits, a, open := fs.V(), fs.freeMap.Bits(), AbsOf(fs), fs.open;
    FileFacts(fs, op.f);
    GrowFits(a.free, SectorCount(fs.open[op.f].data.length), SectorCount(op.offset + |op.data|));
    var written, grown := fs.WriteAt(op.f, op.data, op.offset, memory);
    answer := Count(written);
    HandlesSet(open, op.f, fs.open[op.f]);
    WriteAccounted(v, bits, fs.V(), fs.freeMap.Bits(), a, op, memory, grown);
  }

  method CallCreate(fs: FileSystem, op: FileOp, memory: bool) returns (answer: Answer, ghost place: nat)
    requires fs.Valid() && InBounds(op) && op.CreateOp?
    modifies fs`disk, fs`nodes, fs`owner, fs.freeMap.bits
    ensures fs.Valid() && AbsOf(fs) == Next(old(AbsOf(fs)), op, memory, place) && answer == AnswerOf(old(AbsOf(fs)), op, memory, place)
    ensures Creates(old(AbsOf(fs)), op, memory) ==> place !in old(AbsOf(fs)).files
    ensures Accounted(old(fs.V()), old(fs.freeMap.Bits()), fs.V(), fs.freeMap.Bits(), old(AbsOf(fs)), op, memory)
  {
    hide Saved, Mirrors, AllUsed, ZeroPad, Grow, Footprint, Unmarked, Handles, Stray, OwnerAdds, Accounted, Volume.Files, Volume.Valid,
      Volume.Contents;
    ghost var v, bits, a := fs.V(), fs.freeMap.Bits(), AbsOf(fs);
    LiveFacts(v, fs.open);
    CreateExact(a.free, SectorCount(op.length));
    var r := fs.CreateFile(op.length, memory);
    CreateAccounted(v, bits, fs.V(), fs.freeMap.Bits(), a, op, memory, r);
    if r.Some? {
      answer, place := Made(r.value), r.value;
    } else {
      answer, place := Refused, 0;
    }
  }

  method CallClose(fs: FileSystem, op: FileOp, memory: bool) returns (answer: Answer)
    requires fs.Valid() && op.CloseOp? && op.f in fs.open && Applies(AbsOf(fs), op)
    modifies fs`open, fs`nodes, fs`owner, fs.freeMap.bits
    ensures fs.Valid() && AbsOf(fs) == Next(old(AbsOf(fs)), op, memory, 0) && answer == AnswerOf(old(AbsOf(fs)), op, memory, 0)
    ensures Accounted(old(fs.V()), old(fs.freeMap.Bits()), fs.V(), fs.freeMap.Bits(), old(AbsOf(fs)), op, memory)
  {
    hide Saved, Mirrors, AllUsed, Footprint, Unmarked, Handles, Stray, Accounted, Volume.Files, Volume.Valid, Volume.Contents, Volume.OwnedBy;
    ghost var v, bits, a, open := fs.V(), fs.freeMap.Bits(), AbsOf(fs), fs.open;
    FileFacts(fs, op.f);
    fs.Close(op.f);
    answer := Done;
    HandlesSet(open, op.f, open[op.f].(openCnt := if open[op.f].openCnt > 1 then open[op.f].openCnt - 1 else 0));
    if Deletes(a, op) {
      DeleteAccounted(v, bits, fs.V(), fs.freeMap.Bits(), a, op, memory);
    } else {
      NothingMoved(v, bits, fs.V(), a, op, memory);
    }
  }

  /** A call that only changes who has inodes open. */
  method CallOpen(fs: FileSystem, op: FileOp, memory: bool) returns (answer: Answer)
    requires fs.Valid() && (op.OpenOp? || op.RemoveOp? || op.DenyOp? || op.AllowOp?) && Applies(AbsOf(fs), op)
    modifies fs`open, fs`nodes
    ensures fs.Valid() && AbsOf(fs) == Next(old(AbsOf(fs)), op, memory, 0) && answer == AnswerOf(old(AbsOf(fs)), op, memory, 0)
    ensures Accounted(old(fs.V()), old(fs.freeMap.Bits()), fs.V(), fs.freeMap.Bits(), old(AbsOf(fs)), op, memory)
  {
    hide Saved, Mirrors, AllUsed, Unmarked, Handles, Stray, Accounted, Volume.Files, Volume.Valid, Volume.Contents, Volume.OwnedBy;
    ghost var v, bits, a, open := fs.V(), fs.freeMap.Bits(), AbsOf(fs), fs.open;
    LiveFacts(v, open);
    if op.f in fs.open {
      FileFacts(fs, op.f);
    }
    answer := Done;
    match op {
      case OpenOp(f) =>
        var ok := fs.Open(f, memory);
        answer := if ok then Done else Refused;
      case RemoveOp(f) => fs.Remove(f);
      case DenyOp(f) => fs.DenyWrite(f);
      case AllowOp(f) => fs.AllowWrite(f);
    }
    if op.f in fs.open {
      HandlesSet(open, op.f, fs.open[op.f]);
    }
    NothingMoved(v, bits, fs.V(), a, op, memory);
  }

  method CallRead(fs: FileSystem, op: FileOp, memory: bool) returns (answer: Answer)
    requires fs.Valid() && op.ReadOp? && op.f in fs.open && Applies(AbsOf(fs), op)
    ensures AbsOf(fs) == Next(AbsOf(fs), op, memory, 0) && answer == AnswerOf(AbsOf(fs), op, memory, 0)
  {
    hide Saved, Mirrors, AllUsed, Unmarked, Handles, Volume.Files, Volume.Valid, Volume.Contents, Window;
    FileFacts(fs, op.f);
    var buffer := fs.ReadAt(op.f, op.size, op.offset, memory);
    answer := Bytes(buffer);
  }

  lemma NextKeys(a: State, op: FileOp, memory: bool, place: nat)
    ensures Next(a, op, memory, place).files.Keys ==
      if Creates(a, op, memory) then a.files.Keys + {place} else if Deletes(a, op) then a.files.Keys - {op.f} else a.files.Keys
  {
    hide Grow, Footprint, Patched, Accepted, ZeroPad;
  }

  /** Can the call be made at all, and does it delete a file?  LIVE are the inodes that directories list. */
  method Check(fs: FileSystem, live: set<nat>, op: FileOp) returns (applies: bool, deletes: bool)
    requires fs.Valid() && live == fs.nodes.Keys
    ensures applies == Applies(AbsOf(fs), op) && (applies && !op.CreateOp? && !op.OpenOp? ==> op.f in fs.open)
    ensures deletes == Deletes(AbsOf(fs), op)
  {
    hide Saved, AllUsed, Unmarked, Volume.Valid, Volume.Contents;
    deletes := op.CloseOp? && op.f in fs.open && fs.open[op.f].openCnt <= 1 && fs.open[op.f].removed;
    match op
    case CreateOp(_) => applies := true;
    case OpenOp(f) => applies := f in live;
    case DenyOp(f) => applies := f in fs.open && fs.open[f].denyWriteCnt < fs.open[f].openCnt;
    case AllowOp(f) => applies := f in fs.open && 0 < fs.open[f].denyWriteCnt <= fs.open[f].openCnt;
    case _ => applies := op.f in fs.open;
  }

  /** One call.  PLACE is the sector of a new file. */
  method Call(fs: FileSystem, live: set<nat>, op: FileOp, memory: bool) returns (answer: Answer, live': set<nat>, ghost place: nat)
    requires fs.Valid() && live == fs.nodes.Keys && InBounds(op)
    modifies fs`disk, fs`open, fs`nodes, fs`owner, fs.freeMap.bits
    ensures fs.Valid() && live' == fs.nodes.Keys
    ensures AbsOf(fs) == Next(old(AbsOf(fs)), op, memory, place) && answer == AnswerOf(old(AbsOf(fs)), op, memory, place)
    ensures Creates(old(AbsOf(fs)), op, memory) ==> place !in old(AbsOf(fs)).files
    ensures Accounted(old(fs.V()), old(fs.freeMap.Bits()), fs.V(), fs.freeMap.Bits(), old(AbsOf(fs)), op, memory)
  {
    hide Saved, Mirrors, AllUsed, Unmarked, Handles, Stray, Accounted, Next, Creates, Deletes, Abs, Volume.Files, Volume.Valid, Volume.Contents;
    ghost var v, bits, a := fs.V(), fs.freeMap.Bits(), AbsOf(fs);
    LiveFiles(fs);
    var applies, deletes := Check(fs, live, op);
    place := 0;
    if !applies {
      NotApplied(a, op, memory);
      NothingMoved(v, bits, v, a, op, memory);
      return Refused, live, 0;
    }
    match op {
      case ReadOp(_, _, _) =>
        answer := CallRead(fs, op, memory);
        NothingMoved(v, bits, v, a, op, memory);
      case WriteOp(_, _, _) => answer := CallWrite(fs, op, memory);
      case CreateOp(_) => answer, place := CallCreate(fs, op, memory);
      case CloseOp(_) => answer := CallClose(fs, op, memory);
      case _ => answer := CallOpen(fs, op, memory);
    }
    NextKeys(a, op, memory, place);
    LiveFiles(fs);
    MadeOne(a, op, memory, place);
    live' := if answer.Made? then live + {answer.f} else if deletes then live - {op.f} else live;
  }

  lemma LiveFiles(fs: FileSystem)
    requires fs.Valid()
    ensures AbsOf(fs).files.Keys == fs.nodes.Keys
  {
    hide Saved, AllUsed, Unmarked, Volume.Valid, Volume.Contents;
  }

  lemma NotApplied(a: State, op: FileOp, memory: bool)
    requires !Applies(a, op)
    ensures Next(a, op, memory, 0) == a && AnswerOf(a, op, memory, 0) == Refused && !Creates(a, op, memory)
  {
  }

  lemma MadeOne(a: State, op: FileOp, memory: bool, place: nat)
    ensures AnswerOf(a, op, memory, place).Made? <==> Creates(a, op, memory)
    ensures Creates(a, op, memory) ==> AnswerOf(a, op, memory, place) == Made(place)
    ensures Deletes(a, op) ==> op.CloseOp?
  {
    hide Grow, Footprint, Window, Accepted;
  }

  /** W and BITS' account for the sectors since V and BITS, with the run as recorded. */
  ghost predicate RunAccounted(v: Volume, bits: seq<bool>, w: Volume, bits': seq<bool>, a: State, ops: seq<FileOp>,
                               memory: nat -> bool, place: seq<nat>)
    requires |place| == |ops|
  {
    && (forall s :: Stray(bits, v.owner, s) ==> Stray(bits', w.owner, s))
    && (AlwaysSpace(a, ops, memory, place) ==> forall s :: Stray(bits', w.owner, s) ==> Stray(bits, v.owner, s))
    && (forall g :: g in v.nodes && NeverTouched(a, ops, memory, place, g) ==> g in w.nodes && w.OwnedBy(g) == v.OwnedBy(g))
  }

  lemma AccountedMore(v: Volume, bits: seq<bool>, u: Volume, bits1: seq<bool>, w: Volume, bits2: seq<bool>, a: State, ops: seq<FileOp>,
                      memory: nat -> bool, place: seq<nat>, x: nat)
    requires |place| < |ops| && RunAccounted(v, bits, u, bits1, a, ops[..|place|], memory, place)
    requires Accounted(u, bits1, w, bits2, After(a, ops[..|place|], memory, place), ops[|place|], memory(|place|))
    ensures RunAccounted(v, bits, w, bits2, a, ops[..|place| + 1], memory, place + [x])
  {
    hide Stray, HasSpace, Touches, AlwaysSpace, NeverTouched, After, Volume.OwnedBy;
    FreshMore(a, ops, memory, place, x);
    forall g | g in v.nodes && NeverTouched(a, ops[..|place| + 1], memory, place + [x], g)
      ensures g in w.nodes && w.OwnedBy(g) == v.OwnedBy(g)
    {
      TouchedMore(a, ops, memory, place, x, g);
    }
  }

  /** If no space ran out and every file is an untouched old one, the free map is as it was. */
  lemma MapRestored(v: Volume, bits: seq<bool>, w: Volume, bits': seq<bool>)
    requires v.Valid() && w.Valid() && |bits'| == |bits| && AllUsed(bits, v.owner) && AllUsed(bits', w.owner)
    requires forall s :: Stray(bits', w.owner, s) == Stray(bits, v.owner, s)
    requires w.nodes.Keys == v.nodes.Keys && forall g :: g in v.nodes ==> w.OwnedBy(g) == v.OwnedBy(g)
    ensures bits' == bits
  {
    hide Loc, Volume.Recorded, Volume.ZeroTails;
    forall s | 0 <= s < |bits|
      ensures bits'[s] == bits[s]
    {
      assert Stray(bits', w.owner, s) == Stray(bits, v.owner, s);
      assert s in v.owner ==> s in v.OwnedBy(v.owner[s].file);
      assert s in w.owner ==> s in w.OwnedBy(w.owner[s].file);
    }
  }

  ghost predicate Quiet(a: State, ops: seq<FileOp>, memory: nat -> bool, place: seq<nat>, files: set<nat>)
    requires |place| == |ops|
  {
    AlwaysSpace(a, ops, memory, place) && forall g :: g in files ==> NeverTouched(a, ops, memory, place, g)
  }

  /** Any run of calls, by any openers, over any inodes that exist or come to exist: the answers and the final
      state are those of plain byte sequences and a number of free sectors.  The free map marks what files own
      and what it marked besides, unless a call ran out of space; if moreover the files are again those there
      were at the start, each as it was, the map is the one there was. */
  method Run(fs: FileSystem, live: set<nat>, ops: seq<FileOp>, memory: nat -> bool) returns (answers: seq<Answer>, ghost place: seq<nat>)
    requires fs.Valid() && live == fs.nodes.Keys && forall i :: 0 <= i < |ops| ==> InBounds(ops[i])
    modifies fs`disk, fs`open, fs`nodes, fs`owner, fs.freeMap.bits
    ensures fs.Valid() && |place| == |ops| && AllFresh(old(AbsOf(fs)), ops, memory, place)
    ensures AbsOf(fs) == After(old(AbsOf(fs)), ops, memory, place) && answers == Answers(old(AbsOf(fs)), ops, memory, place)
    ensures RunAccounted(old(fs.V()), old(fs.freeMap.Bits()), fs.V(), fs.freeMap.Bits(), old(AbsOf(fs)), ops, memory, place)
    ensures forall f :: f in AbsOf(fs).files ==> Recalls(old(AbsOf(fs)), ops, memory, place, f, AbsOf(fs).files[f])
    ensures fs.nodes.Keys == old(fs.nodes.Keys) && Quiet(old(AbsOf(fs)), ops, memory, place, fs.nodes.Keys) ==>
      fs.freeMap.Bits() == old(fs.freeMap.Bits())
  {
    hide Saved, Mirrors, AllUsed, Unmarked, Handles, Stray, Accounted, Next, AnswerOf, Creates, AllFresh, AlwaysSpace, NeverTouched, Abs, Recalls,
      RunAccounted, Volume.Files, Volume.Valid, Volume.OwnedBy;
    ghost var v, bits, a := fs.V(), fs.freeMap.Bits(), AbsOf(fs);
    answers, place := [], [];
    var known, n := live, 0;
    NothingRun(v, bits, a, memory);
    while n < |ops|
      invariant fs.Valid() && known == fs.nodes.Keys && n == |place| <= |ops| && |fs.freeMap.Bits()| == |bits|
      invariant AbsOf(fs) == After(a, ops[..n], memory, place) && answers == Answers(a, ops[..n], memory, place)
      invariant AllFresh(a, ops[..n], memory, place)
      invariant RunAccounted(v, bits, fs.V(), fs.freeMap.Bits(), a, ops[..n], memory, place)
    {
      ghost var x, u, bits1 := 0, fs.V(), fs.freeMap.Bits();
      var answer;
      answer, known, x := Call(fs, known, ops[n], memory(n));
      PlayedMore(a, ops, memory, place, x);
      FreshMore(a, ops, memory, place, x);
      AccountedMore(v, bits, u, bits1, fs.V(), fs.freeMap.Bits(), a, ops, memory, place, x);
      answers, place := answers + [answer], place + [x];
      n := n + 1;
    }
    assert ops[..|ops|] == ops;
    if fs.nodes.Keys == v.nodes.Keys && Quiet(a, ops, memory, place, fs.nodes.Keys) {
      QuietMap(v, bits, fs.V(), fs.freeMap.Bits(), a, ops, memory, place);
    }
    AllRecall(a, ops, memory, place);
  }

  lemma AllRecall(a: State, ops: seq<FileOp>, memory: nat -> bool, place: seq<nat>)
    requires |place| == |ops|
    ensures var b := After(a, ops, memory, place); forall f :: f in b.files ==> Recalls(a, ops, memory, place, f, b.files[f])
  {
    hide After, Recalls;
    forall f | f in After(a, ops, memory, place).files
      ensures Recalls(a, ops, memory, place, f, After(a, ops, memory, place).files[f])
    {
      FilesRecall(a, ops, memory, place, f);
    }
  }

  lemma NothingRun(v: Volume, bits: seq<bool>, a: State, memory: nat -> bool)
    ensures RunAccounted(v, bits, v, bits, a, [], memory, []) && AllFresh(a, [], memory, [])
  {
  }

  lemma QuietMap(v: Volume, bits: seq<bool>, w: Volume, bits': seq<bool>, a: State, ops: seq<FileOp>, memory: nat -> bool, place: seq<nat>)
    requires v.Valid() && w.Valid() && |bits'| == |bits| && AllUsed(bits, v.owner) && AllUsed(bits', w.owner)
    requires |place| == |ops| && RunAccounted(v, bits, w, bits', a, ops, memory, place)
    requires w.nodes.Keys == v.nodes.Keys && Quiet(a, ops, memory, place, w.nodes.Keys)
    ensures bits' == bits
  {
    hide Stray, AlwaysSpace, NeverTouched, AllUsed, Volume.Valid, Volume.OwnedBy;
    MapRestored(v, bits, w, bits');
  }
}
