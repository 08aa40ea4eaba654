/** writePrivate as the steps it takes on a file system: data goes to a fresh owner-only file that is
    synced and renamed over the target. Any number of writers interleave, any call may fail, and the
    machine may crash after any step. */
module PrivateFile {
  import opened Bytes
  import opened Wrappers

  /** The file written, or one of the temporary names beside it. */
  datatype Name = Target | Temp(n: nat)

  datatype File = File(data: bytes, mode: nat, synced: bool)

  /** 0600. */
  const OWNER_ONLY: nat := 384

  /** No bit set for group or others. */
  predicate IsPrivate(mode: nat) {
    mode % 64 == 0
  }

  /** Where a writer is: the call it made last with success, or what it does on its way out. The
      deferred removal runs in Leaving. */
  datatype Pc = Start | Made | Created | Moded | Written | Synced | Closed | Leaving(ok: bool) | Done(ok: bool)

  datatype Writer = Writer(data: bytes, pc: Pc, temp: nat, file: nat)

  /** files by inode; what the names in the directory stand for; the writers by id; who has replaced
      the target, in order. */
  datatype System = System(
    files: map<nat, File>,
    dir: map<Name, nat>,
    writers: map<nat, Writer>,
    published: seq<nat>)

  datatype Step =
    | Begin(w: nat, data: bytes)
    | MakeDir(w: nat)
    | Create(w: nat, temp: nat, file: nat, mode: nat)
    | Chmod(w: nat)
    | WriteUpTo(w: nat, n: nat)
    | WriteDone(w: nat)
    | Sync(w: nat)
    | Close(w: nat)
    | Rename(w: nat)
    | Fail(w: nat)
    | Remove(w: nat, removed: bool)

  predicate At(s: System, w: nat, pc: Pc) {
    w in s.writers && s.writers[w].pc == pc
  }

  predicate HasFile(pc: Pc) {
    pc == Created || pc == Moded || pc == Written || pc == Synced || pc == Closed
  }

  function Go(s: System, w: nat, pc: Pc): (t: System)
    requires w in s.writers
  {
    s.(writers := s.writers[w := s.writers[w].(pc := pc)])
  }

  function Put(s: System, w: nat, f: File, pc: Pc): (t: System)
    requires w in s.writers
  {
    Go(s.(files := s.files[s.writers[w].file := f]), w, pc)
  }

  /** One call of one writer; None when that call is not the one it makes next. */
  function Next(s: System, step: Step): (r: Option<System>) {
    match step
    case Begin(w, data) =>
      if w in s.writers then None else Some(s.(writers := s.writers[w := Writer(data, Start, 0, 0)]))
    case MakeDir(w) =>
      if At(s, w, Start) then Some(Go(s, w, Made)) else None
    case Create(w, temp, file, mode) =>
      // A name not in use now and a file that did not exist, at most owner-only.
      if At(s, w, Made) && Temp(temp) !in s.dir && file !in s.files && IsPrivate(mode) then
        Some(System(s.files[file := File([], mode, false)], s.dir[Temp(temp) := file],
                    s.writers[w := Writer(s.writers[w].data, Created, temp, file)], s.published))
      else None
    case Chmod(w) =>
      if At(s, w, Created) && s.writers[w].file in s.files then
        Some(Put(s, w, s.files[s.writers[w].file].(mode := OWNER_ONLY), Moded))
      else None
    case WriteUpTo(w, n) =>
      if At(s, w, Moded) && s.writers[w].file in s.files
         && |s.files[s.writers[w].file].data| <= n <= |s.writers[w].data| then
        Some(Put(s, w, s.files[s.writers[w].file].(data := s.writers[w].data[..n], synced := false), Moded))
      else None
    case WriteDone(w) =>
      if At(s, w, Moded) && s.writers[w].file in s.files
         && |s.files[s.writers[w].file].data| == |s.writers[w].data| then
        Some(Go(s, w, Written))
      else None
    case Sync(w) =>
      if At(s, w, Written) && s.writers[w].file in s.files then
        Some(Put(s, w, s.files[s.writers[w].file].(synced := true), Synced))
      else None
    case Close(w) =>
      if At(s, w, Synced) then Some(Go(s, w, Closed)) else None
    case Rename(w) =>
      // By name: whatever the temporary name stands for now.
      if At(s, w, Closed) && Temp(s.writers[w].temp) in s.dir then
        Some(Go(s.(dir := s.dir[Target := s.dir[Temp(s.writers[w].temp)]] - {Temp(s.writers[w].temp)},
                   published := s.published + [w]), w, Leaving(true)))
      else None
    case Fail(w) =>
      if At(s, w, Start) || At(s, w, Made) then Some(Go(s, w, Done(false)))
      else if w in s.writers && HasFile(s.writers[w].pc) then Some(Go(s, w, Leaving(false)))
      else None
    case Remove(w, removed) =>
      // The deferred removal, whose own failure nobody looks at.
      if w in s.writers && s.writers[w].pc.Leaving? then
        Some(Go(s.(dir := if removed then s.dir - {Temp(s.writers[w].temp)} else s.dir), w, Done(s.writers[w].pc.ok)))
      else None
  }

  function Run(s: System, steps: seq<Step>): (r: Option<System>)
    decreases |steps|
  {
    if steps == [] then Some(s)
    else
      match Next(s, steps[0])
      case None => None
      case Some(t) => Run(t, steps[1..])
  }

  /** The name a writer is given is not one that another has renamed and is still about to remove.
      os.CreateTemp promises only that the name is not in use, and after the rename it is not. */
  predicate IsSafe(s: System, step: Step) {
    step.Create? ==> forall v :: v in s.writers && s.writers[v].pc == Leaving(true) ==> s.writers[v].temp != step.temp
  }

  predicate AllSafe(s: System, steps: seq<Step>)
    decreases |steps|
  {
    steps == [] ||
    (IsSafe(s, steps[0]) &&
     match Next(s, steps[0])
     case None => true
     case Some(t) => AllSafe(t, steps[1..]))
  }

  /** Before any writer: whatever the target is, it is on disk. */
  ghost predicate Initial(s: System) {
    && s.writers == map[] && s.published == []
    && (Target in s.dir ==> s.dir[Target] in s.files && s.files[s.dir[Target]].synced)
  }

  // ---------------------------------------------------------------- the invariant

  /** x made a file and has not given up on it. */
  predicate Owns(x: Writer) {
    HasFile(x.pc) || x.pc.Leaving? || x.pc == Done(true)
  }

  predicate HasPublished(x: Writer) {
    x.pc == Leaving(true) || x.pc == Done(true)
  }

  /** What is in x's file where x is. */
  predicate FileFits(x: Writer, f: File) {
    && IsPrivate(f.mode)
    && (x.pc == Created ==> f.data == [])
    && (x.pc == Moded ==> f.mode == OWNER_ONLY && f.data <= x.data)
    && (x.pc == Written ==> f.mode == OWNER_ONLY && f.data == x.data)
    && (x.pc == Synced || x.pc == Closed || HasPublished(x) ==> f == File(x.data, OWNER_ONLY, true))
  }

  ghost predicate WriterOk(s0: System, s: System, x: Writer) {
    Owns(x) ==>
      && x.file in s.files && x.file !in s0.files
      && FileFits(x, s.files[x.file])
      && (!HasPublished(x) ==> Temp(x.temp) in s.dir && s.dir[Temp(x.temp)] == x.file)
  }

  ghost predicate Apart(s: System) {
    forall v, w :: v in s.writers && w in s.writers && v != w && Owns(s.writers[v]) && Owns(s.writers[w]) ==>
      && s.writers[v].file != s.writers[w].file
      && (s.writers[v].pc != Done(true) && s.writers[w].pc != Done(true) ==> s.writers[v].temp != s.writers[w].temp)
  }

  ghost predicate Inv(s0: System, s: System) {
    && (forall w :: w in s.writers ==> WriterOk(s0, s, s.writers[w]))
    && Apart(s)
    && PublishedOk(s)
    && (forall f :: f in s0.files ==> f in s.files && s.files[f] == s0.files[f])
    && TargetOk(s0, s)
  }

  ghost predicate PublishedOk(s: System) {
    forall w :: w in s.published <==> w in s.writers && HasPublished(s.writers[w])
  }

  ghost predicate TargetOk(s0: System, s: System)
    requires PublishedOk(s)
  {
    if s.published == [] then
      (Target in s.dir <==> Target in s0.dir) && (Target in s.dir ==> s.dir[Target] == s0.dir[Target])
    else
      var last := s.published[|s.published| - 1];
      assert last in s.published;
      Target in s.dir && s.dir[Target] == s.writers[last].file
  }

  lemma InitialInv(s: System)
    requires Initial(s)
    ensures Inv(s, s)
  {
  }

  /** A writer is fine as long as its file and its name are as they were. */
  lemma StillOk(s0: System, s: System, t: System, x: Writer)
    requires WriterOk(s0, s, x)
    requires Owns(x) ==> x.file in t.files && t.files[x.file] == s.files[x.file]
    requires Owns(x) && !HasPublished(x) ==> Temp(x.temp) in t.dir && t.dir[Temp(x.temp)] == s.dir[Temp(x.temp)]
    ensures WriterOk(s0, t, x)
  {
  }

  lemma GoKeepsInv(s0: System, s: System, w: nat, pc: Pc)
    requires Inv(s0, s) && w in s.writers && !s.writers[w].pc.Done?
    requires HasPublished(s.writers[w]) == HasPublished(s.writers[w].(pc := pc))
    requires Owns(s.writers[w].(pc := pc)) ==> Owns(s.writers[w])
    requires WriterOk(s0, s, s.writers[w].(pc := pc))
    ensures Inv(s0, Go(s, w, pc))
  {
    var t := Go(s, w, pc);
    forall v | v in t.writers
      ensures WriterOk(s0, t, t.writers[v])
    {
      StillOk(s0, s, t, t.writers[v]);
    }
    GoKeepsApart(s, w, pc);
  }

  lemma GoKeepsApart(s: System, w: nat, pc: Pc)
    requires Apart(s) && w in s.writers && !s.writers[w].pc.Done?
    requires Owns(s.writers[w].(pc := pc)) ==> Owns(s.writers[w])
    ensures Apart(Go(s, w, pc))
  {
  }

  lemma PutKeepsInv(s0: System, s: System, w: nat, f: File, pc: Pc)
    requires Inv(s0, s) && w in s.writers && HasFile(s.writers[w].pc) && HasFile(pc)
    requires FileFits(s.writers[w].(pc := pc), f)
    ensures Inv(s0, Put(s, w, f, pc))
  {
    var t := Put(s, w, f, pc);
    assert WriterOk(s0, s, s.writers[w]);
    forall v | v in t.writers
      ensures WriterOk(s0, t, t.writers[v])
    {
      if v != w {
        StillOk(s0, s, t, s.writers[v]);
      }
    }
    PutKeepsRest(s0, s, w, f, pc);
  }

  lemma PutKeepsRest(s0: System, s: System, w: nat, f: File, pc: Pc)
    requires Inv(s0, s) && w in s.writers && HasFile(s.writers[w].pc) && HasFile(pc)
    ensures var t := Put(s, w, f, pc); Apart(t) && PublishedOk(t) && TargetOk(s0, t)
    ensures forall g :: g in s0.files ==> g in Put(s, w, f, pc).files && Put(s, w, f, pc).files[g] == s0.files[g]
  {
    assert WriterOk(s0, s, s.writers[w]);
  }

  lemma CreateKeepsInv(s0: System, s: System, w: nat, temp: nat, file: nat, mode: nat)
    requires Inv(s0, s) && Next(s, Create(w, temp, file, mode)).Some? && IsSafe(s, Create(w, temp, file, mode))
    ensures Inv(s0, Next(s, Create(w, temp, file, mode)).value)
  {
    var t := Next(s, Create(w, temp, file, mode)).value;
    forall v | v in t.writers
      ensures WriterOk(s0, t, t.writers[v])
    {
      if v != w {
        StillOk(s0, s, t, s.writers[v]);
      }
    }
    CreateKeepsApart(s0, s, w, temp, file, mode);
    CreateKeepsRest(s0, s, w, temp, file, mode);
  }

  lemma CreateKeepsRest(s0: System, s: System, w: nat, temp: nat, file: nat, mode: nat)
    requires Inv(s0, s) && Next(s, Create(w, temp, file, mode)).Some?
    ensures var t := Next(s, Create(w, temp, file, mode)).value; PublishedOk(t) && TargetOk(s0, t)
  {
  }

  lemma CreateKeepsApart(s0: System, s: System, w: nat, temp: nat, file: nat, mode: nat)
    requires Inv(s0, s) && Next(s, Create(w, temp, file, mode)).Some? && IsSafe(s, Create(w, temp, file, mode))
    ensures Apart(Next(s, Create(w, temp, file, mode)).value)
  {
    forall v | v in s.writers && v != w && Owns(s.writers[v])
      ensures s.writers[v].file != file && (s.writers[v].pc != Done(true) ==> s.writers[v].temp != temp)
    {
      assert WriterOk(s0, s, s.writers[v]);
    }
  }

  lemma RenameKeepsInv(s0: System, s: System, w: nat)
    requires Inv(s0, s) && Next(s, Rename(w)).Some?
    ensures Inv(s0, Next(s, Rename(w)).value)
  {
    var t := Next(s, Rename(w)).value;
    assert WriterOk(s0, s, s.writers[w]);
    forall v | v in t.writers
      ensures WriterOk(s0, t, t.writers[v])
    {
      assert WriterOk(s0, s, s.writers[v]);
    }
  }

  lemma DropKeepsInv(s0: System, s: System, temp: nat)
    requires Inv(s0, s)
    requires forall w :: w in s.writers && Owns(s.writers[w]) && !HasPublished(s.writers[w]) ==>
               s.writers[w].temp != temp
    ensures Inv(s0, s.(dir := s.dir - {Temp(temp)}))
  {
    var t := s.(dir := s.dir - {Temp(temp)});
    forall w | w in t.writers
      ensures WriterOk(s0, t, t.writers[w])
    {
      assert WriterOk(s0, s, s.writers[w]);
    }
  }

  lemma RemoveKeepsInv(s0: System, s: System, w: nat, removed: bool)
    requires Inv(s0, s) && Next(s, Remove(w, removed)).Some?
    ensures Inv(s0, Next(s, Remove(w, removed)).value)
  {
    var x := s.writers[w];
    assert WriterOk(s0, s, x);
    GoKeepsInv(s0, s, w, Done(x.pc.ok));
    if removed {
      DropKeepsInv(s0, Go(s, w, Done(x.pc.ok)), x.temp);
    }
  }

  lemma BeginKeepsInv(s0: System, s: System, w: nat, data: bytes)
    requires Inv(s0, s) && Next(s, Begin(w, data)).Some?
    ensures Inv(s0, Next(s, Begin(w, data)).value)
  {
    var t := Next(s, Begin(w, data)).value;
    forall v | v in t.writers
      ensures WriterOk(s0, t, t.writers[v])
    {
      if v != w {
        StillOk(s0, s, t, s.writers[v]);
      }
    }
    BeginKeepsApart(s, w, data);
    BeginKeepsTarget(s0, s, w, data);
  }

  lemma BeginKeepsApart(s: System, w: nat, data: bytes)
    requires Apart(s) && Next(s, Begin(w, data)).Some?
    ensures Apart(Next(s, Begin(w, data)).value)
  {
  }

  lemma BeginKeepsTarget(s0: System, s: System, w: nat, data: bytes)
    requires Inv(s0, s) && Next(s, Begin(w, data)).Some?
    ensures var t := Next(s, Begin(w, data)).value; PublishedOk(t) && TargetOk(s0, t)
  {
  }

  /** Calls that change the writer's own file and nothing else. */
  lemma FileStepKeepsInv(s0: System, s: System, step: Step)
    requires Inv(s0, s) && Next(s, step).Some? && (step.Chmod? || step.WriteUpTo? || step.Sync?)
    ensures Inv(s0, Next(s, step).value)
  {
    var x := s.writers[step.w];
    assert WriterOk(s0, s, x);
    var f := s.files[x.file];
    match step
    case Chmod(w) => PutKeepsInv(s0, s, w, f.(mode := OWNER_ONLY), Moded);
    case WriteUpTo(w, n) => PutKeepsInv(s0, s, w, f.(data := x.data[..n], synced := false), Moded);
    case Sync(w) => PutKeepsInv(s0, s, w, f.(synced := true), Synced);
  }

  lemma FailKeepsInv(s0: System, s: System, w: nat)
    requires Inv(s0, s) && Next(s, Fail(w)).Some?
    ensures Inv(s0, Next(s, Fail(w)).value)
  {
    assert WriterOk(s0, s, s.writers[w]);
    GoKeepsInv(s0, s, w, if HasFile(s.writers[w].pc) then Leaving(false) else Done(false));
  }

  /** Calls that change nothing but where the writer is. */
  lemma PlainStepKeepsInv(s0: System, s: System, step: Step)
    requires Inv(s0, s) && Next(s, step).Some? && (step.MakeDir? || step.WriteDone? || step.Close?)
    ensures Inv(s0, Next(s, step).value)
  {
    assert WriterOk(s0, s, s.writers[step.w]);
    GoKeepsInv(s0, s, step.w, if step.MakeDir? then Made else if step.WriteDone? then Written else Closed);
  }

  /** Every call of every writer keeps the invariant, so long as the names it is given are safe. */
  lemma StepKeepsInv(s0: System, s: System, step: Step)
    requires Inv(s0, s) && Next(s, step).Some? && IsSafe(s, step)
    ensures Inv(s0, Next(s, step).value)
  {
    if step.Begin? {
      BeginKeepsInv(s0, s, step.w, step.data);
    } else if step.Create? {
      CreateKeepsInv(s0, s, step.w, step.temp, step.file, step.mode);
    } else if step.Rename? {
      RenameKeepsInv(s0, s, step.w);
    } else if step.Remove? {
      RemoveKeepsInv(s0, s, step.w, step.removed);
    } else if step.Chmod? || step.WriteUpTo? || step.Sync? {
      FileStepKeepsInv(s0, s, step);
    } else if step.Fail? {
      FailKeepsInv(s0, s, step.w);
    } else {
      PlainStepKeepsInv(s0, s, step);
    }
  }

  lemma {:induction false} RunKeepsInv(s0: System, s: System, steps: seq<Step>)
    requires Inv(s0, s) && AllSafe(s, steps) && Run(s, steps).Some?
    ensures Inv(s0, Run(s, steps).value)
    decreases |steps|
  {
    if steps != [] {
      StepKeepsInv(s0, s, steps[0]);
      RunKeepsInv(s0, Next(s, steps[0]).value, steps[1..]);
    }
  }

  // ---------------------------------------------------------------- what it means

  /** What a reader of the target finds. */
  function TargetFile(s: System): (f: Option<File>) {
    if Target in s.dir && s.dir[Target] in s.files then Some(s.files[s.dir[Target]]) else None
  }

  /** f is all of some writer's data, with mode 0600. */
  ghost predicate IsComplete(s: System, w: nat, f: File) {
    w in s.writers && f.data == s.writers[w].data && f.mode == 6 * 64
  }

  /** The target is what it was or all of what the last writer to replace it wrote. */
  ghost predicate IsWhole(s0: System, s: System) {
    if s.published == [] then TargetFile(s) == TargetFile(s0)
    else TargetFile(s).Some? && IsComplete(s, s.published[|s.published| - 1], TargetFile(s).value)
  }

  lemma InvIsWhole(s0: System, s: System)
    requires Inv(s0, s) && Initial(s0)
    ensures IsWhole(s0, s)
  {
    if s.published != [] {
      var last := s.published[|s.published| - 1];
      assert last in s.published;
      assert WriterOk(s0, s, s.writers[last]);
    }
  }

  /** At any moment of any interleaving the target is whole, and no file of any writer can be read by
      others. */
  lemma TargetIsWhole(s0: System, steps: seq<Step>)
    requires Initial(s0) && AllSafe(s0, steps) && Run(s0, steps).Some?
    ensures var s := Run(s0, steps).value;
            && IsWhole(s0, s)
            && forall w :: w in s.writers && HasFile(s.writers[w].pc) ==>
                 s.writers[w].file in s.files && IsPrivate(s.files[s.writers[w].file].mode)
  {
    InitialInv(s0);
    RunKeepsInv(s0, s0, steps);
    var s := Run(s0, steps).value;
    InvIsWhole(s0, s);
    assert forall w :: w in s.writers ==> WriterOk(s0, s, s.writers[w]);
  }

  /** The target is no file any unfinished writer works on. */
  lemma TargetIsNobodys(s0: System, s: System, w: nat)
    requires Inv(s0, s) && Initial(s0) && w in s.writers && HasFile(s.writers[w].pc)
    ensures Target in s.dir ==> s.dir[Target] != s.writers[w].file && s.dir[Target] in s.files
  {
    assert WriterOk(s0, s, s.writers[w]);
    if s.published != [] {
      var last := s.published[|s.published| - 1];
      assert last in s.published;
      assert WriterOk(s0, s, s.writers[last]);
    }
  }

  /** The target changes only when a writer replaces it, and is then all of that writer's data. */
  lemma OnlyRenameChangesTarget(s0: System, s: System, step: Step)
    requires Inv(s0, s) && Initial(s0) && Next(s, step).Some? && IsSafe(s, step)
    ensures var t := Next(s, step).value;
            if step.Rename? then
              t.published == s.published + [step.w] && TargetFile(t).Some? && IsComplete(t, step.w, TargetFile(t).value)
            else t.published == s.published && TargetFile(t) == TargetFile(s)
  {
    if step.Rename? {
      assert WriterOk(s0, s, s.writers[step.w]);
    } else if step.Chmod? || step.WriteUpTo? || step.Sync? {
      TargetIsNobodys(s0, s, step.w);
    } else if step.Create? {
      TargetInFiles(s0, s);
    }
  }

  lemma TargetInFiles(s0: System, s: System)
    requires Inv(s0, s) && Initial(s0)
    ensures Target in s.dir ==> s.dir[Target] in s.files
  {
    if s.published != [] {
      var last := s.published[|s.published| - 1];
      assert last in s.published;
      assert WriterOk(s0, s, s.writers[last]);
    }
  }

  // ---------------------------------------------------------------- what a writer did in a run

  lemma {:induction false} RunAppend(s: System, a: seq<Step>, b: seq<Step>)
    requires Run(s, a).Some?
    ensures Run(s, a + b) == Run(Run(s, a).value, b)
    ensures AllSafe(s, a + b) <==> AllSafe(s, a) && AllSafe(Run(s, a).value, b)
    decreases |a|
  {
    if a == [] {
      assert a + b == b;
    } else {
      assert (a + b)[1..] == a[1..] + b;
      RunAppend(Next(s, a[0]).value, a[1..], b);
    }
  }

  lemma {:induction false} RunPrefix(s: System, a: seq<Step>, b: seq<Step>)
    requires Run(s, a + b).Some?
    ensures Run(s, a).Some?
    decreases |a|
  {
    if a != [] {
      assert (a + b)[1..] == a[1..] + b;
      RunPrefix(Next(s, a[0]).value, a[1..], b);
    }
  }

  lemma RunOne(s: System, step: Step)
    ensures Run(s, [step]) == Next(s, step)
    ensures AllSafe(s, [step]) <==> IsSafe(s, step)
  {
    assert [step][1..] == [];
  }

  /** Step i of the run leaves what the target reads as alone. */
  predicate LeavesTarget(s0: System, steps: seq<Step>, i: nat)
    requires i < |steps|
  {
    var before, after := Run(s0, steps[..i]), Run(s0, steps[..i + 1]);
    before.Some? && after.Some? && TargetFile(before.value) == TargetFile(after.value)
  }

  /** Step i is w's rename, and right behind it the target is all of data, with mode 0600. */
  predicate ReplacesAt(s0: System, steps: seq<Step>, w: nat, data: bytes, i: nat)
    requires i < |steps|
  {
    var after := Run(s0, steps[..i + 1]);
    && steps[i] == Rename(w) && after.Some?
    && TargetFile(after.value).Some?
    && TargetFile(after.value).value.data == data && TargetFile(after.value).value.mode == 6 * 64
  }

  /** No step of w but the i-th of the run changed the target. */
  ghost predicate LeftAloneBut(s0: System, steps: seq<Step>, w: nat, i: int) {
    forall j :: 0 <= j < |steps| && steps[j].w == w && j != i ==> LeavesTarget(s0, steps, j)
  }

  ghost predicate LeftAlone(s0: System, steps: seq<Step>, w: nat) {
    LeftAloneBut(s0, steps, w, -1)
  }

  /** One step of w replaced the target, with all of data, and no other changed it. */
  ghost predicate Replaced(s0: System, steps: seq<Step>, w: nat, data: bytes, i: nat) {
    i < |steps| && ReplacesAt(s0, steps, w, data, i) && LeftAloneBut(s0, steps, w, i)
  }

  /** What w did, as where it is tells. */
  ghost predicate Tells(s0: System, steps: seq<Step>, w: nat)
    requires Run(s0, steps).Some?
  {
    var s := Run(s0, steps).value;
    if w !in s.writers then forall j :: 0 <= j < |steps| ==> steps[j].w != w
    else if HasPublished(s.writers[w]) then exists i :: Replaced(s0, steps, w, s.writers[w].data, i)
    else LeftAlone(s0, steps, w)
  }

  /** What a step from s to t does to w. */
  ghost predicate WriterStep(s: System, step: Step, t: System, w: nat) {
    if step.w != w then (w in t.writers <==> w in s.writers) && (w in s.writers ==> t.writers[w] == s.writers[w])
    else
      && w in t.writers && (w in s.writers ==> t.writers[w].data == s.writers[w].data)
      && (HasPublished(t.writers[w]) <==> step.Rename? || (w in s.writers && HasPublished(s.writers[w])))
      && (step.Rename? ==> w in s.writers && !HasPublished(s.writers[w]))
  }

  lemma NextWriter(s: System, step: Step, t: System, w: nat)
    requires Next(s, step) == Some(t)
    ensures WriterStep(s, step, t, w)
  {
  }

  lemma AppendedAlone(s0: System, init: seq<Step>, last: Step, w: nat, i: int)
    requires LeftAloneBut(s0, init, w, i)
    requires last.w == w ==> i == |init| || LeavesTarget(s0, init + [last], |init|)
    ensures LeftAloneBut(s0, init + [last], w, i)
  {
    var steps := init + [last];
    forall j | 0 <= j < |steps| && steps[j].w == w && j != i
      ensures LeavesTarget(s0, steps, j)
    {
      if j < |init| {
        assert steps[..j] == init[..j] && steps[..j + 1] == init[..j + 1] && steps[j] == init[j];
        assert LeavesTarget(s0, init, j);
      }
    }
  }

  lemma AppendedReplaced(s0: System, init: seq<Step>, last: Step, w: nat, data: bytes, i: nat)
    requires Replaced(s0, init, w, data, i)
    requires last.w == w ==> LeavesTarget(s0, init + [last], |init|)
    ensures Replaced(s0, init + [last], w, data, i)
  {
    AppendedAlone(s0, init, last, w, i);
    assert (init + [last])[..i + 1] == init[..i + 1];
  }

  /** Step |init| of init and last leaves the target alone unless it is a rename, and a rename makes it
      the writer's. */
  lemma LastStep(s0: System, init: seq<Step>, last: Step)
    requires Run(s0, init).Some? && Inv(s0, Run(s0, init).value) && Initial(s0) && IsSafe(Run(s0, init).value, last)
    requires Next(Run(s0, init).value, last).Some? && Run(s0, init + [last]) == Next(Run(s0, init).value, last)
    ensures !last.Rename? ==> LeavesTarget(s0, init + [last], |init|)
    ensures last.Rename? ==>
              last.w in Run(s0, init).value.writers
              && ReplacesAt(s0, init + [last], last.w, Run(s0, init).value.writers[last.w].data, |init|)
  {
    var steps, n := init + [last], |init|;
    assert steps[..n] == init && steps[..n + 1] == steps;
    OnlyRenameChangesTarget(s0, Run(s0, init).value, last);
  }

  /** What one more step tells of w. */
  lemma OneMoreTells(s0: System, init: seq<Step>, last: Step, s: System, t: System, w: nat)
    requires Run(s0, init) == Some(s) && Run(s0, init + [last]) == Some(t) && WriterStep(s, last, t, w)
    requires !last.Rename? ==> LeavesTarget(s0, init + [last], |init|)
    requires last == Rename(w) ==> ReplacesAt(s0, init + [last], w, s.writers[w].data, |init|)
    requires Tells(s0, init, w)
    ensures Tells(s0, init + [last], w)
  {
    if w in s.writers && HasPublished(s.writers[w]) {
      var i :| Replaced(s0, init, w, s.writers[w].data, i);
      AppendedReplaced(s0, init, last, w, s.writers[w].data, i);
    } else if last == Rename(w) {
      AppendedAlone(s0, init, last, w, |init|);
      assert Replaced(s0, init + [last], w, s.writers[w].data, |init|);
    } else if w in s.writers || last.w == w {
      AppendedAlone(s0, init, last, w, -1);
    }
  }

  /** A writer that has returned nil replaced the target once, with all of its data, and changed it in
      no other way; a writer that has returned an error never changed it. */
  lemma {:induction false} ReturnTells(s0: System, steps: seq<Step>, w: nat)
    requires Initial(s0) && AllSafe(s0, steps) && Run(s0, steps).Some?
    ensures Tells(s0, steps, w)
    decreases |steps|
  {
    if steps != [] {
      var init, last := steps[..|steps| - 1], steps[|steps| - 1];
      assert steps == init + [last];
      RunPrefix(s0, init, [last]);
      RunAppend(s0, init, [last]);
      RunOne(Run(s0, init).value, last);
      ReturnTells(s0, init, w);
      InitialInv(s0);
      RunKeepsInv(s0, s0, init);
      LastStep(s0, init, last);
      NextWriter(Run(s0, init).value, last, Run(s0, steps).value, w);
      OneMoreTells(s0, init, last, Run(s0, init).value, Run(s0, steps).value, w);
    }
  }

  // ---------------------------------------------------------------- crashes

  /** What d may be when the machine comes back after a crash in s: synced files are as they were, any
      other holds anything, and the target's name stands for any file it has stood for. */
  ghost predicate MaySurvive(s0: System, s: System, files: map<nat, File>, target: Option<nat>) {
    && (forall f :: f in s.files && s.files[f].synced ==> f in files && files[f] == s.files[f])
    && match target
       case None => Target !in s0.dir
       case Some(f) =>
         || (Target in s0.dir && f == s0.dir[Target])
         || exists w :: w in s.published && w in s.writers && s.writers[w].file == f
  }

  /** After a crash at any moment the target is what it was at the start, or all of what some writer
      that replaced it wrote. */
  lemma CrashLeavesTargetWhole(s0: System, steps: seq<Step>, files: map<nat, File>, target: Option<nat>)
    requires Initial(s0) && AllSafe(s0, steps) && Run(s0, steps).Some?
    requires MaySurvive(s0, Run(s0, steps).value, files, target)
    ensures var s := Run(s0, steps).value;
            match target
            case None => TargetFile(s0) == None
            case Some(f) =>
              && f in files
              && (TargetFile(s0) == Some(files[f]) || exists w :: w in s.published && IsComplete(s, w, files[f]))
  {
    var s := Run(s0, steps).value;
    InitialInv(s0);
    RunKeepsInv(s0, s0, steps);
    if target.Some? && !(Target in s0.dir && target.value == s0.dir[Target]) {
      var w :| w in s.published && w in s.writers && s.writers[w].file == target.value;
      assert WriterOk(s0, s, s.writers[w]);
      assert IsComplete(s, w, files[target.value]);
    }
  }

  // ---------------------------------------------------------------- which names are safe

  /** Everything writer w does up to the rename. */
  function UpToRename(w: nat, data: bytes, temp: nat, file: nat): (steps: seq<Step>) {
    ToFile(w, data, temp, file) + FromFile(w, data)
  }

  function ToFile(w: nat, data: bytes, temp: nat, file: nat): (steps: seq<Step>) {
    [Begin(w, data), MakeDir(w), Create(w, temp, file, OWNER_ONLY)]
  }

  function FromFile(w: nat, data: bytes): (steps: seq<Step>) {
    [Chmod(w), WriteUpTo(w, |data|), WriteDone(w), Sync(w), Close(w)]
  }

  /** s with writer w at pc and f in its file. */
  function Stage(s: System, w: nat, data: bytes, temp: nat, file: nat, f: File, pc: Pc): (t: System) {
    System(s.files[file := f], s.dir[Temp(temp) := file], s.writers[w := Writer(data, pc, temp, file)], s.published)
  }

  lemma StageAfterPut(s: System, w: nat, data: bytes, temp: nat, file: nat, f: File, pc: Pc, g: File, next: Pc)
    ensures Put(Stage(s, w, data, temp, file, f, pc), w, g, next) == Stage(s, w, data, temp, file, g, next)
    ensures Go(Stage(s, w, data, temp, file, f, pc), w, next) == Stage(s, w, data, temp, file, f, next)
  {
    assert s.files[file := f][file := g] == s.files[file := g];
    assert s.writers[w := Writer(data, pc, temp, file)][w := Writer(data, next, temp, file)]
        == s.writers[w := Writer(data, next, temp, file)];
  }

  lemma Unroll(s: System, steps: seq<Step>, t: System, i: nat)
    requires i < |steps| && Next(s, steps[i]) == Some(t)
    ensures Run(s, steps[i..]) == Run(t, steps[i + 1..])
    ensures AllSafe(s, steps[i..]) <==> IsSafe(s, steps[i]) && AllSafe(t, steps[i + 1..])
  {
    assert steps[i..][1..] == steps[i + 1..];
  }

  lemma StageCreated(s: System, w: nat, data: bytes, temp: nat, file: nat)
    requires w !in s.writers && Temp(temp) !in s.dir && file !in s.files
    ensures Run(s, ToFile(w, data, temp, file))
         == Some(Stage(s, w, data, temp, file, File([], OWNER_ONLY, false), Created))
    ensures AllSafe(s, ToFile(w, data, temp, file)) <==> IsSafe(s, Create(w, temp, file, OWNER_ONLY))
  {
    var steps := ToFile(w, data, temp, file);
    var s1 := Next(s, steps[0]).value;
    var s2 := Next(s1, steps[1]).value;
    var s3 := Next(s2, steps[2]).value;
    assert s3.writers == s.writers[w := Writer(data, Created, temp, file)];
    Unroll(s, steps, s1, 0);
    Unroll(s1, steps, s2, 1);
    Unroll(s2, steps, s3, 2);
    assert steps[0..] == steps && steps[3..] == [];
    assert IsSafe(s2, steps[2]) <==> IsSafe(s, steps[2]) by {
      forall v | v in s.writers
        ensures s2.writers[v] == s.writers[v]
      {
      }
      assert !s2.writers[w].pc.Leaving?;
    }
  }

  lemma StageWritten(s: System, w: nat, data: bytes, temp: nat, file: nat, mode: nat)
    ensures Run(Stage(s, w, data, temp, file, File([], mode, false), Created), FromFile(w, data))
         == Run(Stage(s, w, data, temp, file, File(data, OWNER_ONLY, false), Moded), FromFile(w, data)[2..])
  {
    var steps := FromFile(w, data);
    var blank, empty, full := File([], mode, false), File([], OWNER_ONLY, false), File(data, OWNER_ONLY, false);
    StageAfterPut(s, w, data, temp, file, blank, Created, empty, Moded);
    StageAfterPut(s, w, data, temp, file, empty, Moded, full, Moded);
    assert data[..|data|] == data;
    Unroll(Stage(s, w, data, temp, file, blank, Created), steps, Stage(s, w, data, temp, file, empty, Moded), 0);
    Unroll(Stage(s, w, data, temp, file, empty, Moded), steps, Stage(s, w, data, temp, file, full, Moded), 1);
    assert steps[0..] == steps;
  }

  lemma StageSynced(s: System, w: nat, data: bytes, temp: nat, file: nat)
    ensures Run(Stage(s, w, data, temp, file, File(data, OWNER_ONLY, false), Moded), FromFile(w, data)[2..])
         == Run(Stage(s, w, data, temp, file, File(data, OWNER_ONLY, true), Synced), FromFile(w, data)[4..])
  {
    var steps := FromFile(w, data);
    var full, done := File(data, OWNER_ONLY, false), File(data, OWNER_ONLY, true);
    StageAfterPut(s, w, data, temp, file, full, Moded, full, Written);
    StageAfterPut(s, w, data, temp, file, full, Written, done, Synced);
    Unroll(Stage(s, w, data, temp, file, full, Moded), steps, Stage(s, w, data, temp, file, full, Written), 2);
    Unroll(Stage(s, w, data, temp, file, full, Written), steps, Stage(s, w, data, temp, file, done, Synced), 3);
  }

  /** Undisturbed, a writer with its file gets there. */
  lemma FileReachesRename(s: System, w: nat, data: bytes, temp: nat, file: nat, mode: nat)
    ensures Run(Stage(s, w, data, temp, file, File([], mode, false), Created), FromFile(w, data))
         == Some(Stage(s, w, data, temp, file, File(data, OWNER_ONLY, true), Closed))
    ensures AllSafe(Stage(s, w, data, temp, file, File([], mode, false), Created), FromFile(w, data))
  {
    var done := File(data, OWNER_ONLY, true);
    StageWritten(s, w, data, temp, file, mode);
    StageSynced(s, w, data, temp, file);
    StageAfterPut(s, w, data, temp, file, done, Synced, done, Closed);
    RunOne(Stage(s, w, data, temp, file, done, Synced), Close(w));
    assert FromFile(w, data)[4..] == [Close(w)];
    NoCreateIsSafe(Stage(s, w, data, temp, file, File([], mode, false), Created), FromFile(w, data));
  }

  lemma {:induction false} NoCreateIsSafe(s: System, steps: seq<Step>)
    requires forall i :: 0 <= i < |steps| ==> !steps[i].Create?
    ensures AllSafe(s, steps)
    decreases |steps|
  {
    if steps != [] && Next(s, steps[0]).Some? {
      NoCreateIsSafe(Next(s, steps[0]).value, steps[1..]);
    }
  }

  /** And so does one with an unused name. */
  lemma UndisturbedReachesRename(s: System, w: nat, data: bytes, temp: nat, file: nat)
    requires w !in s.writers && Temp(temp) !in s.dir && file !in s.files
    ensures Run(s, UpToRename(w, data, temp, file))
         == Some(Stage(s, w, data, temp, file, File(data, OWNER_ONLY, true), Closed))
    ensures AllSafe(s, UpToRename(w, data, temp, file)) <==> IsSafe(s, Create(w, temp, file, OWNER_ONLY))
  {
    StageCreated(s, w, data, temp, file);
    FileReachesRename(s, w, data, temp, file, OWNER_ONLY);
    RunAppend(s, ToFile(w, data, temp, file), FromFile(w, data));
  }

  /** The name's former holder v removes it, another writer u is given it and writes half of its data
      there, and w renames that. */
  function Spoil(v: nat, w: nat, u: nat, temp: nat, file: nat, data: bytes, half: nat): (steps: seq<Step>) {
    [Remove(v, true)] + ToFile(u, data, temp, file) + [Chmod(u), WriteUpTo(u, half), Rename(w)]
  }

  /** w is before its rename, v still before its removal, both of one name. */
  ghost predicate Clash(s: System, v: nat, w: nat) {
    && v != w && v in s.writers && w in s.writers
    && s.writers[v].pc == Leaving(true) && s.writers[w].pc == Closed && s.writers[w].temp == s.writers[v].temp
    && forall x :: x in s.writers && x != v && s.writers[x].pc == Leaving(true) ==>
         s.writers[x].temp != s.writers[v].temp
  }

  lemma NameRemoved(s: System, v: nat, w: nat, u: nat, file: nat, data: bytes)
    requires Clash(s, v, w) && u !in s.writers && file !in s.files
    ensures var temp := s.writers[v].temp;
            var t := s.(dir := s.dir - {Temp(temp)}, writers := s.writers[v := s.writers[v].(pc := Done(true))]);
            var steps := [Remove(v, true)] + ToFile(u, data, temp, file);
            && Run(s, steps) == Some(Stage(t, u, data, temp, file, File([], OWNER_ONLY, false), Created))
            && AllSafe(s, steps)
  {
    var temp := s.writers[v].temp;
    var t := s.(dir := s.dir - {Temp(temp)}, writers := s.writers[v := s.writers[v].(pc := Done(true))]);
    RunOne(s, Remove(v, true));
    assert Next(s, Remove(v, true)) == Some(t);
    StageCreated(t, u, data, temp, file);
    RunAppend(s, [Remove(v, true)], ToFile(u, data, temp, file));
  }

  lemma HalfRenamed(t: System, w: nat, u: nat, temp: nat, file: nat, data: bytes, half: nat)
    requires half <= |data| && w != u && At(t, w, Closed) && t.writers[w].temp == temp
    ensures var r := Run(Stage(t, u, data, temp, file, File([], OWNER_ONLY, false), Created),
                         [Chmod(u), WriteUpTo(u, half), Rename(w)]);
            && r.Some? && TargetFile(r.value) == Some(File(data[..half], OWNER_ONLY, false))
            && r.value.published == t.published + [w] && At(r.value, w, Leaving(true)) && At(r.value, u, Moded)
            && r.value.writers[w].data == t.writers[w].data && r.value.writers[u].data == data
  {
    var c := [Chmod(u), WriteUpTo(u, half), Rename(w)];
    var empty, part := File([], OWNER_ONLY, false), File(data[..half], OWNER_ONLY, false);
    StageAfterPut(t, u, data, temp, file, empty, Created, empty, Moded);
    StageAfterPut(t, u, data, temp, file, empty, Moded, part, Moded);
    var s0, s1, s2 := Stage(t, u, data, temp, file, empty, Created),
      Stage(t, u, data, temp, file, empty, Moded), Stage(t, u, data, temp, file, part, Moded);
    Unroll(s0, c, s1, 0);
    Unroll(s1, c, s2, 1);
    assert c[0..] == c && c[2..] == [Rename(w)];
    RunOne(s2, Rename(w));
  }

  /** One clash is enough, with no other name that is unsafe: w takes its write for done and leaves the
      target with half of what another writer has. */
  lemma ClashBreaksTarget(s: System, v: nat, w: nat, u: nat, file: nat, data: bytes, half: nat)
    requires Clash(s, v, w) && u !in s.writers && file !in s.files && half <= |data|
    ensures var steps := Spoil(v, w, u, s.writers[v].temp, file, data, half);
            var r := Run(s, steps);
            && AllSafe(s, steps)
            && r.Some? && TargetFile(r.value) == Some(File(data[..half], OWNER_ONLY, false))
            && r.value.published == s.published + [w] && At(r.value, w, Leaving(true)) && At(r.value, u, Moded)
            && r.value.writers[w].data == s.writers[w].data && r.value.writers[u].data == data
  {
    var temp := s.writers[v].temp;
    var t := s.(dir := s.dir - {Temp(temp)}, writers := s.writers[v := s.writers[v].(pc := Done(true))]);
    var a, b := [Remove(v, true)] + ToFile(u, data, temp, file), [Chmod(u), WriteUpTo(u, half), Rename(w)];
    NameRemoved(s, v, w, u, file, data);
    HalfRenamed(t, w, u, temp, file, data, half);
    NoCreateIsSafe(Run(s, a).value, b);
    RunAppend(s, a, b);
    assert Spoil(v, w, u, temp, file, data, half) == a + b;
  }

  lemma {:induction false} Unused(used: set<nat>) returns (n: nat)
    ensures forall i :: i in used ==> i < n
  {
    n := 0;
    if used != {} {
      var i :| i in used;
      var m := Unused(used - {i});
      n := if m <= i then i + 1 else m;
      assert forall j :: j in used ==> j == i || j in used - {i};
    }
  }

  /** Whatever happens from s on, with no unsafe name, the target stays whole. */
  ghost predicate StaysWhole(s0: System, s: System) {
    forall steps :: Run(s, steps).Some? && AllSafe(s, steps) ==> IsWhole(s0, Run(s, steps).value)
  }

  lemma UnsafeNameClashes(s0: System, s: System, v: nat, w: nat, temp: nat, file: nat, f: File)
    requires Inv(s0, s) && At(s, w, Made) && Temp(temp) !in s.dir && file !in s.files
    requires At(s, v, Leaving(true)) && s.writers[v].temp == temp
    ensures Clash(Stage(s, w, s.writers[w].data, temp, file, f, Closed), v, w)
  {
  }

  lemma OneUnsafeNameBreaks(s0: System, s: System, w: nat, temp: nat, file: nat, mode: nat) returns (steps: seq<Step>)
    requires Inv(s0, s) && Next(s, Create(w, temp, file, mode)).Some? && !IsSafe(s, Create(w, temp, file, mode))
    ensures var t := Next(s, Create(w, temp, file, mode)).value;
            Run(t, steps).Some? && AllSafe(t, steps) && !IsWhole(s0, Run(t, steps).value)
  {
    var v :| v in s.writers && s.writers[v].pc == Leaving(true) && s.writers[v].temp == temp;
    var data := s.writers[w].data;
    var start := Stage(s, w, data, temp, file, File([], mode, false), Created);
    var c := Stage(s, w, data, temp, file, File(data, OWNER_ONLY, true), Closed);
    FileReachesRename(s, w, data, temp, file, mode);
    UnsafeNameClashes(s0, s, v, w, temp, file, File(data, OWNER_ONLY, true));
    var u := Unused(c.writers.Keys);
    var f := Unused(c.files.Keys);
    steps := FromFile(w, data) + Spoil(v, w, u, temp, f, data + [0, 0], |data| + 1);
    SpoiledIsNotWhole(s0, c, v, w, u, f, data);
    RunAppend(start, FromFile(w, data), Spoil(v, w, u, temp, f, data + [0, 0], |data| + 1));
  }

  lemma SpoiledIsNotWhole(s0: System, s: System, v: nat, w: nat, u: nat, file: nat, data: bytes)
    requires Clash(s, v, w) && u !in s.writers && file !in s.files && data == s.writers[w].data
    ensures var steps := Spoil(v, w, u, s.writers[v].temp, file, data + [0, 0], |data| + 1);
            AllSafe(s, steps) && Run(s, steps).Some? && !IsWhole(s0, Run(s, steps).value)
  {
    ClashBreaksTarget(s, v, w, u, file, data + [0, 0], |data| + 1);
    assert |(data + [0, 0])[..|data| + 1]| == |data| + 1;
  }

  /** A name may be given out exactly when nobody who has renamed it still has its removal before him:
      then the target stays whole whatever follows, and otherwise this one name is enough to break it. */
  lemma SafeExactly(s0: System, before: seq<Step>, w: nat, temp: nat, file: nat, mode: nat)
    requires Initial(s0) && AllSafe(s0, before) && Run(s0, before).Some?
    requires Next(Run(s0, before).value, Create(w, temp, file, mode)).Some?
    ensures var s, step := Run(s0, before).value, Create(w, temp, file, mode);
            IsSafe(s, step) <==> StaysWhole(s0, Next(s, step).value)
  {
    var s, step := Run(s0, before).value, Create(w, temp, file, mode);
    InitialInv(s0);
    RunKeepsInv(s0, s0, before);
    if IsSafe(s, step) {
      StepKeepsInv(s0, s, step);
      var t := Next(s, step).value;
      forall steps | Run(t, steps).Some? && AllSafe(t, steps)
        ensures IsWhole(s0, Run(t, steps).value)
      {
        RunKeepsInv(s0, t, steps);
        InvIsWhole(s0, Run(t, steps).value);
      }
    } else {
      var steps := OneUnsafeNameBreaks(s0, s, w, temp, file, mode);
      assert !IsWhole(s0, Run(Next(s, step).value, steps).value);
    }
  }

  const NOTHING: System := System(map[], map[], map[], [])

  /** The first writer done but for its removal. */
  const AFTER_FIRST: System :=
    System(map[0 := File([1], OWNER_ONLY, true)], map[Target := 0], map[0 := Writer([1], Leaving(true), 7, 0)], [0])

  /** The run in which three writers are given one name: the first, done, removes the second's file;
      the third makes its own under that name; and the second renames the third's, half written. */
  function OneNameForThree(): (steps: seq<Step>) {
    UpToRename(0, [1], 7, 0) + [Rename(0)] + UpToRename(1, [2], 7, 1) + Spoil(0, 1, 2, 7, 2, [3, 4], 1)
  }

  lemma FirstRenames()
    ensures Next(Stage(NOTHING, 0, [1], 7, 0, File([1], OWNER_ONLY, true), Closed), Rename(0)) == Some(AFTER_FIRST)
  {
    var s := Stage(NOTHING, 0, [1], 7, 0, File([1], OWNER_ONLY, true), Closed);
    assert s.dir == map[Temp(7) := 0];
    assert map[Temp(7) := 0][Target := 0] - {Temp(7)} == map[Target := 0];
    assert s.writers[0 := Writer([1], Leaving(true), 7, 0)] == AFTER_FIRST.writers;
    assert s.files == AFTER_FIRST.files;
    assert s.published + [0] == [0];
  }

  lemma FirstPart()
    ensures Run(NOTHING, UpToRename(0, [1], 7, 0) + [Rename(0)]) == Some(AFTER_FIRST)
  {
    UndisturbedReachesRename(NOTHING, 0, [1], 7, 0);
    FirstRenames();
    RunOne(Stage(NOTHING, 0, [1], 7, 0, File([1], OWNER_ONLY, true), Closed), Rename(0));
    RunAppend(NOTHING, UpToRename(0, [1], 7, 0), [Rename(0)]);
  }

  /** The second one before its rename. */
  const BEFORE_THIRD: System :=
    Stage(AFTER_FIRST, 1, [2], 7, 1, File([2], OWNER_ONLY, true), Closed)

  lemma SecondClashes()
    ensures Clash(BEFORE_THIRD, 0, 1) && BEFORE_THIRD.writers[0].temp == 7 && BEFORE_THIRD.writers[1].data == [2]
    ensures 2 !in BEFORE_THIRD.writers && 2 !in BEFORE_THIRD.files
  {
    assert BEFORE_THIRD.writers.Keys == {0, 1} && BEFORE_THIRD.files.Keys == {0, 1};
  }

  lemma SecondPart()
    ensures Run(NOTHING, UpToRename(0, [1], 7, 0) + [Rename(0)] + UpToRename(1, [2], 7, 1)) == Some(BEFORE_THIRD)
  {
    FirstPart();
    UndisturbedReachesRename(AFTER_FIRST, 1, [2], 7, 1);
    RunAppend(NOTHING, UpToRename(0, [1], 7, 0) + [Rename(0)], UpToRename(1, [2], 7, 1));
  }

  /** Names that are only unused are not enough: such a run does come about, from nothing. The second
      writer takes its write of [2] for done, and the target is half of what the third one has. */
  lemma ReusedNameBreaksTarget()
    ensures Initial(NOTHING) && Run(NOTHING, OneNameForThree()).Some?
    ensures var s := Run(NOTHING, OneNameForThree()).value;
            && TargetFile(s) == Some(File([3], OWNER_ONLY, false))
            && At(s, 1, Leaving(true)) && s.writers[1].data == [2]
            && At(s, 2, Moded) && s.writers[2].data == [3, 4]
  {
    SecondPart();
    SecondClashes();
    ClashBreaksTarget(BEFORE_THIRD, 0, 1, 2, 2, [3, 4], 1);
    var a, b := UpToRename(0, [1], 7, 0) + [Rename(0)], UpToRename(1, [2], 7, 1);
    RunAppend(NOTHING, a + b, Spoil(0, 1, 2, 7, 2, [3, 4], 1));
    assert [3, 4][..1] == [3];
  }

  // ---------------------------------------------------------------- the code

  /** What is left of s when writers other than w make those of the calls that can be made. */
  function Disturbed(s: System, w: nat, steps: seq<Step>): (t: System)
    decreases |steps|
  {
    if steps == [] then s
    else
      var t, step := Disturbed(s, w, steps[..|steps| - 1]), steps[|steps| - 1];
      if step.w != w && Next(t, step).Some? then Next(t, step).value else t
  }

  /** The file system as one process sees it: state, and everything done to it since start. */
  class FileSystem {
    var state: System
    ghost const start: System
    ghost var log: seq<Step>

    constructor (s: System)
      ensures Valid() && state == start == s && log == []
    {
      state, start, log := s, s, [];
    }

    ghost predicate Valid()
      reads this
    {
      Run(start, log) == Some(state)
    }

    /** No writer was given an unsafe name since start. */
    ghost predicate IsSound()
      reads this
    {
      Initial(start) && AllSafe(start, log)
    }

    method Take(step: Step) returns (done: bool)
      requires Valid()
      modifies this
      ensures Valid() && done == Next(old(state), step).Some?
      ensures if done then Some(state) == Next(old(state), step) && log == old(log) + [step]
              else state == old(state) && log == old(log)
    {
      var next := Next(state, step);
      done := next.Some?;
      if done {
        RunAppend(start, log, [step]);
        RunOne(state, step);
        state, log := next.value, log + [step];
      }
    }

    /** Calls of other writers, those that can be made. */
    method Others(w: nat, steps: seq<Step>)
      requires Valid()
      modifies this
      ensures Valid() && old(log) <= log
      ensures w in state.writers <==> w in old(state).writers
      ensures w in state.writers ==> state.writers[w] == old(state).writers[w]
      ensures state == Disturbed(old(state), w, steps)
    {
      for i := 0 to |steps|
        invariant Valid() && old(log) <= log
        invariant w in state.writers <==> w in old(state).writers
        invariant w in state.writers ==> state.writers[w] == old(state).writers[w]
        invariant state == Disturbed(old(state), w, steps[..i])
      {
        assert steps[..i + 1][..i] == steps[..i];
        if steps[i].w != w {
          var _ := Take(steps[i]);
        }
      }
      assert steps[..|steps|] == steps;
    }
  }

  /** What is not up to the writer: which of its calls fail, which name, file and mode CreateTemp gives
      it, how much each write call takes, whether the removal works, and what others do between calls. */
  datatype World = World(
    fails: nat -> bool,
    temp: nat, file: nat, mode: nat,
    chunk: nat -> nat,
    removed: bool,
    others: nat -> seq<Step>)

  /** Where a call that works leaves its writer. */
  function After(step: Step): (pc: Pc) {
    match step
    case MakeDir(_) => Made
    case Create(_, _, _, _) => Created
    case Chmod(_) => Moded
    case WriteUpTo(_, _) => Moded
    case WriteDone(_) => Written
    case Sync(_) => Synced
    case Close(_) => Closed
    case _ => Leaving(true)
  }

  predicate IsForward(step: Step) {
    !step.Begin? && !step.Fail? && !step.Remove?
  }

  lemma ForwardStep(s: System, step: Step)
    requires IsForward(step) && Next(s, step).Some?
    ensures At(Next(s, step).value, step.w, After(step))
    ensures step.w in s.writers && Next(s, step).value.writers[step.w].data == s.writers[step.w].data
  {
  }

  /** Nothing fails and nobody else is about. */
  ghost predicate Quiet(world: World) {
    forall n :: !world.fails(n) && world.others(n) == []
  }

  /** No call but perhaps a write fails. */
  predicate NoneFailed(world: World) {
    && !world.fails(0) && !world.fails(1) && !world.fails(2) && !world.fails(3)
    && !world.fails(4) && !world.fails(5) && !world.fails(6)
  }

  /** Nobody else is about; any call may fail. */
  ghost predicate Alone(world: World) {
    forall n :: world.others(n) == []
  }

  /** And what CreateTemp would give is free. */
  ghost predicate Unhindered(world: World, s: System) {
    Quiet(world) && Temp(world.temp) !in s.dir && world.file !in s.files && IsPrivate(world.mode)
  }

  /** w's file is there, under its name. */
  predicate InPlace(s: System, w: nat) {
    w in s.writers && s.writers[w].file in s.files && Temp(s.writers[w].temp) in s.dir
  }

  /** How much is in w's file. */
  function Size(s: System, w: nat): (n: nat)
    requires InPlace(s, w)
  {
    |s.files[s.writers[w].file].data|
  }

  /** The temporary names in the directory. */
  function Names(s: System): (names: set<Name>) {
    s.dir.Keys - {Target}
  }

  /** Since begun, the directory has w's own name more while w has a file of that name, and no other. */
  ghost predicate IsTidy(begun: System, s: System, w: nat) {
    w in s.writers &&
    var x := s.writers[w];
    if HasFile(x.pc) || x.pc == Leaving(false) then
      Temp(x.temp) !in Names(begun) && Names(s) == Names(begun) + {Temp(x.temp)}
    else
      Names(s) == Names(begun) && (x.pc == Leaving(true) ==> Temp(x.temp) !in Names(begun))
  }

  lemma StepIsTidy(begun: System, s: System, step: Step, t: System)
    requires Next(s, step) == Some(t) && IsTidy(begun, s, step.w) && (step.Remove? ==> step.removed)
    ensures IsTidy(begun, t, step.w)
  {
  }

  /** One call of w: it fails when the world says so, or when it cannot be made. */
  method Call(fs: FileSystem, world: World, n: nat, step: Step, ghost begun: System) returns (ok: bool)
    requires fs.Valid() && step.w in fs.state.writers && IsForward(step)
    modifies fs
    ensures fs.Valid() && old(fs.log) <= fs.log && step.w in fs.state.writers
    ensures fs.state.writers[step.w].data == old(fs.state).writers[step.w].data
    ensures fs.state.writers[step.w].pc == if ok then After(step) else old(fs.state).writers[step.w].pc
    ensures Quiet(world) ==> Next(old(fs.state), step) == if ok then Some(fs.state) else None
    ensures ok ==> !world.fails(n)
    ensures Alone(world) && IsTidy(begun, old(fs.state), step.w) ==> IsTidy(begun, fs.state, step.w)
  {
    ok := !world.fails(n);
    if ok {
      ghost var before := fs.state;
      ok := fs.Take(step);
      if ok {
        ForwardStep(before, step);
        if IsTidy(begun, before, step.w) {
          StepIsTidy(begun, before, step, fs.state);
        }
      }
    }
    fs.Others(step.w, world.others(n));
  }

  /** The error return: out at once before there is a file, through the deferred removal after. */
  method GiveUp(fs: FileSystem, world: World, w: nat, ghost begun: System)
    requires fs.Valid() && w in fs.state.writers
    requires fs.state.writers[w].pc == Start || fs.state.writers[w].pc == Made || HasFile(fs.state.writers[w].pc)
    modifies fs
    ensures fs.Valid() && old(fs.log) <= fs.log && At(fs.state, w, Done(false))
    ensures fs.state.writers[w].data == old(fs.state).writers[w].data
    ensures if !HasFile(old(fs.state).writers[w].pc) then fs.log == old(fs.log) + [Fail(w)]
            else world.removed ==> Temp(fs.state.writers[w].temp) !in fs.state.dir
    ensures Alone(world) && world.removed && IsTidy(begun, old(fs.state), w) ==> IsTidy(begun, fs.state, w)
  {
    ghost var before := fs.state;
    var failed := fs.Take(Fail(w));
    if IsTidy(begun, before, w) {
      StepIsTidy(begun, before, Fail(w), fs.state);
    }
    if fs.state.writers[w].pc != Done(false) {
      fs.Others(w, world.others(100));
      Leave(fs, world, w, begun);
    }
  }

  /** The deferred removal. */
  method Leave(fs: FileSystem, world: World, w: nat, ghost begun: System)
    requires fs.Valid() && w in fs.state.writers && fs.state.writers[w].pc.Leaving?
    modifies fs
    ensures fs.Valid() && old(fs.log) <= fs.log && At(fs.state, w, Done(old(fs.state).writers[w].pc.ok))
    ensures fs.state.writers[w].data == old(fs.state).writers[w].data
    ensures world.removed ==> Temp(fs.state.writers[w].temp) !in fs.state.dir
    ensures world.removed && IsTidy(begun, old(fs.state), w) ==> IsTidy(begun, fs.state, w)
  {
    ghost var before := fs.state;
    var left := fs.Take(Remove(w, world.removed));
    if world.removed && IsTidy(begun, before, w) {
      StepIsTidy(begun, before, Remove(w, true), fs.state);
    }
  }

  /** Every name given to w is the one it has. */
  ghost predicate HasItsName(steps: seq<Step>, s: System, w: nat) {
    forall i :: 0 <= i < |steps| && steps[i].Create? && steps[i].w == w ==>
      w in s.writers && s.writers[w].temp == steps[i].temp && s.writers[w].pc != Start && s.writers[w].pc != Made
  }

  lemma NameStays(s: System, step: Step, t: System, w: nat)
    requires Next(s, step) == Some(t)
    ensures w in s.writers && s.writers[w].pc != Start && s.writers[w].pc != Made ==>
              w in t.writers && t.writers[w].temp == s.writers[w].temp
              && t.writers[w].pc != Start && t.writers[w].pc != Made
    ensures step.Create? && step.w == w ==>
              w in t.writers && t.writers[w].temp == step.temp && t.writers[w].pc == Created
  {
  }

  lemma {:induction false} NameIsGivenOnce(s0: System, steps: seq<Step>, w: nat)
    requires Run(s0, steps).Some?
    ensures HasItsName(steps, Run(s0, steps).value, w)
    decreases |steps|
  {
    if steps != [] {
      var init, last := steps[..|steps| - 1], steps[|steps| - 1];
      assert steps == init + [last];
      RunPrefix(s0, init, [last]);
      RunAppend(s0, init, [last]);
      RunOne(Run(s0, init).value, last);
      NameIsGivenOnce(s0, init, w);
      OneMoreName(init, last, Run(s0, init).value, Run(s0, steps).value, w);
    }
  }

  lemma OneMoreName(init: seq<Step>, last: Step, s: System, t: System, w: nat)
    requires HasItsName(init, s, w) && Next(s, last) == Some(t)
    ensures HasItsName(init + [last], t, w)
  {
    NameStays(s, last, t, w);
    forall i | 0 <= i <= |init| && (init + [last])[i].Create? && (init + [last])[i].w == w
      ensures w in t.writers && t.writers[w].temp == (init + [last])[i].temp
              && t.writers[w].pc != Start && t.writers[w].pc != Made
    {
      if i < |init| {
        assert init[i] == (init + [last])[i];
      }
    }
  }

  /** No name given to w since from is in the directory. */
  ghost predicate NameIsGone(log: seq<Step>, from: nat, s: System, w: nat) {
    forall i :: from <= i < |log| && log[i].Create? && log[i].w == w ==> Temp(log[i].temp) !in s.dir
  }

  ghost predicate NoName(log: seq<Step>, w: nat) {
    forall i :: 0 <= i < |log| && log[i].Create? ==> log[i].w != w
  }

  lemma NoFileNoName(s0: System, log: seq<Step>, s: System, w: nat)
    requires Run(s0, log) == Some(s)
    ensures At(s, w, Start) || At(s, w, Made) ==> NoName(log, w) && NoName(log + [Fail(w)], w)
  {
    NameIsGivenOnce(s0, log, w);
  }

  lemma NameGoneIfRemoved(s0: System, log: seq<Step>, from: nat, s: System, w: nat)
    requires Run(s0, log) == Some(s)
    ensures w in s.writers && Temp(s.writers[w].temp) !in s.dir ==> NameIsGone(log, from, s, w)
    ensures NoName(log, w) ==> NameIsGone(log, from, s, w)
  {
    NameIsGivenOnce(s0, log, w);
  }

  /** A writer unknown after the steps before has taken none of them. */
  lemma {:induction false} CameLater(s0: System, before: seq<Step>, steps: seq<Step>, w: nat)
    requires before <= steps && Run(s0, before).Some? && w !in Run(s0, before).value.writers
    ensures forall i :: 0 <= i < |before| ==> steps[i].w != w
    decreases |before|
  {
    if before != [] {
      var n := |before| - 1;
      assert before == before[..n] + [before[n]];
      RunPrefix(s0, before[..n], [before[n]]);
      RunAppend(s0, before[..n], [before[n]]);
      RunOne(Run(s0, before[..n]).value, before[n]);
      NextWriter(Run(s0, before[..n]).value, before[n], Run(s0, before).value, w);
      CameLater(s0, before[..n], steps, w);
    }
  }

  lemma ReplacedLater(s0: System, before: seq<Step>, steps: seq<Step>, w: nat, data: bytes, i: nat)
    requires before <= steps && forall j :: 0 <= j < |before| ==> steps[j].w != w
    requires Replaced(s0, steps, w, data, i)
    ensures |before| <= i
  {
    assert steps[i] == Rename(w);
  }

  /** What a writer that began after the steps before has done when it has returned. */
  lemma ReturnTellsHere(s0: System, before: seq<Step>, steps: seq<Step>, s: System, w: nat, ok: bool)
    requires Initial(s0) && AllSafe(s0, steps) && Run(s0, steps) == Some(s) && At(s, w, Done(ok))
    requires before <= steps && Run(s0, before).Some? && w !in Run(s0, before).value.writers
    ensures if ok then exists i :: |before| <= i && Replaced(s0, steps, w, s.writers[w].data, i)
            else LeftAlone(s0, steps, w)
  {
    ReturnTells(s0, steps, w);
    if ok {
      CameLater(s0, before, steps, w);
      var i :| Replaced(s0, steps, w, s.writers[w].data, i);
      ReplacedLater(s0, before, steps, w, s.writers[w].data, i);
    }
  }

  /** `writePrivate`, run as writer w among others. On nil one step of this call replaced the target, with
      all of data, and no other step of it changed the target; on an error none did. Where the deferred
      removal works, the name it was given is gone either way, and with nobody else about the directory
      has the names it had. */
  method WritePrivate(fs: FileSystem, world: World, w: nat, data: bytes) returns (ok: bool)
    requires fs.Valid() && w !in fs.state.writers
    modifies fs
    ensures fs.Valid() && old(fs.log) <= fs.log
    ensures At(fs.state, w, Done(ok)) && fs.state.writers[w].data == data
    ensures fs.IsSound() ==>
              if ok then exists i :: |old(fs.log)| <= i && Replaced(fs.start, fs.log, w, data, i)
              else LeftAlone(fs.start, fs.log, w)
    ensures Unhindered(world, old(fs.state)) ==> ok
    ensures ok ==> NoneFailed(world)
    ensures world.removed ==> NameIsGone(fs.log, |old(fs.log)|, fs.state, w)
    ensures world.removed && Alone(world) ==> fs.state.dir.Keys - {Target} == old(fs.state).dir.Keys - {Target}
  {
    ghost var before, begun := fs.log, fs.state;
    var known := fs.Take(Begin(w, data));
    ok := WriteAndRename(fs, world, w, begun);
    Return(fs, world, w, begun, |before|, ok);
    if fs.IsSound() {
      ReturnTellsHere(fs.start, before, fs.log, fs.state, w, ok);
    }
  }

  /** What is done on the way out, in either case. */
  method Return(fs: FileSystem, world: World, w: nat, ghost begun: System, ghost from: nat, ok: bool)
    requires fs.Valid() && w in fs.state.writers
    requires if ok then fs.state.writers[w].pc == Leaving(true)
             else fs.state.writers[w].pc == Start || fs.state.writers[w].pc == Made || HasFile(fs.state.writers[w].pc)
    modifies fs
    ensures fs.Valid() && old(fs.log) <= fs.log
    ensures At(fs.state, w, Done(ok)) && fs.state.writers[w].data == old(fs.state).writers[w].data
    ensures world.removed ==> NameIsGone(fs.log, from, fs.state, w)
    ensures world.removed && Alone(world) && IsTidy(begun, old(fs.state), w) ==> IsTidy(begun, fs.state, w)
  {
    NoFileNoName(fs.start, fs.log, fs.state, w);
    if ok {
      fs.Others(w, world.others(101));
      Leave(fs, world, w, begun);
    } else {
      GiveUp(fs, world, w, begun);
    }
    NameGoneIfRemoved(fs.start, fs.log, from, fs.state, w);
  }

  /** The calls in their order, up to the first that fails. */
  method WriteAndRename(fs: FileSystem, world: World, w: nat, ghost begun: System) returns (ok: bool)
    requires fs.Valid() && At(fs.state, w, Start)
    modifies fs
    ensures fs.Valid() && old(fs.log) <= fs.log && w in fs.state.writers
    ensures fs.state.writers[w].data == old(fs.state).writers[w].data
    ensures if ok then fs.state.writers[w].pc == Leaving(true)
            else fs.state.writers[w].pc == Start || fs.state.writers[w].pc == Made || HasFile(fs.state.writers[w].pc)
    ensures Unhindered(world, old(fs.state)) ==> ok
    ensures ok ==> NoneFailed(world)
    ensures Alone(world) && IsTidy(begun, old(fs.state), w) ==> IsTidy(begun, fs.state, w)
  {
    ok := MakeTemp(fs, world, w, begun);
    if !ok { return; }
    ok := WriteAll(fs, world, w, begun);
    if !ok { return; }
    ok := Publish(fs, world, w, begun);
  }

  /** In a sound run a writer's file is as its place in the code tells. */
  lemma FileIsThere(s0: System, steps: seq<Step>, w: nat)
    requires Initial(s0) && AllSafe(s0, steps) && Run(s0, steps).Some? && w in Run(s0, steps).value.writers
    ensures var s := Run(s0, steps).value; WriterOk(s0, s, s.writers[w])
  {
    InitialInv(s0);
    RunKeepsInv(s0, s0, steps);
  }

  /** The fresh owner-only file. */
  method MakeTemp(fs: FileSystem, world: World, w: nat, ghost begun: System) returns (ok: bool)
    requires fs.Valid() && At(fs.state, w, Start)
    modifies fs
    ensures fs.Valid() && old(fs.log) <= fs.log && w in fs.state.writers
    ensures fs.state.writers[w].data == old(fs.state).writers[w].data
    ensures if ok then fs.state.writers[w].pc == Moded else fs.state.writers[w].pc in {Start, Made, Created}
    ensures Unhindered(world, old(fs.state)) ==>
              ok && InPlace(fs.state, w) && Size(fs.state, w) == 0
    ensures fs.IsSound() && ok ==>
              InPlace(fs.state, w) && fs.state.files[fs.state.writers[w].file].mode == OWNER_ONLY
    ensures ok ==> !world.fails(0) && !world.fails(1) && !world.fails(2)
    ensures Alone(world) && IsTidy(begun, old(fs.state), w) ==> IsTidy(begun, fs.state, w)
  {
    ok := Call(fs, world, 0, MakeDir(w), begun);
    if !ok { return; }
    ok := Call(fs, world, 1, Create(w, world.temp, world.file, world.mode), begun);
    if !ok { return; }
    ok := Call(fs, world, 2, Chmod(w), begun);
    if fs.IsSound() {
      FileIsThere(fs.start, fs.log, w);
    }
  }

  /** Sync, close and rename over the target. */
  method Publish(fs: FileSystem, world: World, w: nat, ghost begun: System) returns (ok: bool)
    requires fs.Valid() && At(fs.state, w, Written)
    modifies fs
    ensures fs.Valid() && old(fs.log) <= fs.log && w in fs.state.writers
    ensures fs.state.writers[w].data == old(fs.state).writers[w].data
    ensures if ok then fs.state.writers[w].pc == Leaving(true) else HasFile(fs.state.writers[w].pc)
    ensures Quiet(world) && InPlace(old(fs.state), w) ==> ok
    ensures ok ==> !world.fails(3) && !world.fails(4) && !world.fails(5)
    ensures Alone(world) && IsTidy(begun, old(fs.state), w) ==> IsTidy(begun, fs.state, w)
  {
    ok := Call(fs, world, 3, Sync(w), begun);
    if !ok { return; }
    ok := Call(fs, world, 4, Close(w), begun);
    if !ok { return; }
    ok := Call(fs, world, 5, Rename(w), begun);
  }

  /** `tmp.Write`: as many write calls as it takes. */
  method WriteAll(fs: FileSystem, world: World, w: nat, ghost begun: System) returns (ok: bool)
    requires fs.Valid() && At(fs.state, w, Moded)
    modifies fs
    ensures fs.Valid() && old(fs.log) <= fs.log && w in fs.state.writers
    ensures fs.state.writers[w].data == old(fs.state).writers[w].data
    ensures fs.state.writers[w].pc == if ok then Written else Moded
    ensures Quiet(world) && InPlace(old(fs.state), w) && Size(old(fs.state), w) == 0 ==>
              ok && InPlace(fs.state, w)
    ensures fs.IsSound() && ok ==>
              InPlace(fs.state, w) && fs.state.files[fs.state.writers[w].file].data == fs.state.writers[w].data
    ensures ok ==> !world.fails(6)
    ensures Alone(world) && IsTidy(begun, old(fs.state), w) ==> IsTidy(begun, fs.state, w)
  {
    var size, n := |fs.state.writers[w].data|, 0;
    while n < size
      invariant n <= size && fs.Valid() && old(fs.log) <= fs.log
      invariant At(fs.state, w, Moded) && fs.state.writers[w].data == old(fs.state).writers[w].data
      invariant Quiet(world) && InPlace(old(fs.state), w) && Size(old(fs.state), w) == 0 ==>
                  InPlace(fs.state, w) && Size(fs.state, w) == n
      invariant Alone(world) && IsTidy(begun, old(fs.state), w) ==> IsTidy(begun, fs.state, w)
    {
      var more := world.chunk(n);
      n := if 0 < more <= size - n then n + more else size;
      ok := Call(fs, world, 10 + n, WriteUpTo(w, n), begun);
      if !ok { return; }
    }
    ok := Call(fs, world, 6, WriteDone(w), begun);
    if fs.IsSound() {
      FileIsThere(fs.start, fs.log, w);
    }
  }
}
