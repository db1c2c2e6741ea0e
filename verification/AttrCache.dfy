// The reference-count protocol of libgit2's attribute-file cache, as a
// transition system over any number of threads.  Every shared access of
// git_attr_cache__get and of the later git_attr_file__free is a step of its
// own, so the runs below include every interleaving of them.

module AttrCache {

  import opened Wrappers

  datatype Source = InMemory | FromFile | FromIndex

  // One element of entry->file[]: the entry's path and the source index.
  datatype Slot = Slot(path: string, source: Source)

  // The identity of one allocation of a git_attr_file.
  type File = nat

  // The reference count, whether rc.owner is non-NULL, and the pair
  // (entry, source) fixed when the file is created.
  datatype FileState = FileState(count: int, owned: bool, home: Slot)

  // Where a thread stands.  The names follow the routine it is in.
  datatype Pc =
    | Idle
    | LookupLock | LookupRead | LookupInc | LookupUnlock
    | Check | Load | LoadParse
    | UpsertLock | UpsertAbort | UpsertOwn | UpsertInc | UpsertSwap
    | UpsertDisown | UpsertDrop | UpsertUnlock
    | DropLookup
    | Failed | RemoveLock | RemoveCas | RemoveUnlock | RemoveDisown | RemoveDrop
    | DropFile

  // The locals of git_attr_cache__get and its callees, together with the
  // files the caller was given and has not released (`held`).  `dying` is
  // the file whose count this thread has just brought to zero and whose
  // owner it is about to inspect.
  datatype Thread = Thread(
    pc: Pc,
    slot: Slot,
    file: Option<File>,
    updated: Option<File>,
    taken: Option<File>,
    dying: Option<File>,
    held: multiset<File>)

  // `slots` holds the non-NULL elements of all entry->file arrays and
  // `entries` the paths in cache->files.  `freed` logs every call of
  // attr_file_free and `faulted` records a touch of memory that is not
  // allocated (or of an entry that does not exist).
  datatype State = State(
    lock: Option<nat>,
    entries: set<string>,
    slots: map<Slot, File>,
    files: map<File, FileState>,
    nextId: File,
    freed: seq<File>,
    faulted: bool,
    threads: seq<Thread>)

  // What the environment decides at a step.
  datatype Action =
    | Get(slot: Slot) | Release(file: File)
    | LockOk | LockFails
    | UpToDate | Stale | CheckFails
    | LoadOk | LoadFails
    | Proceed
    | Reap

  // ---------------------------------------------------------------- steps

  function Put(s: State, t: nat, th: Thread): State
    requires t < |s.threads|
  {
    s.(threads := s.threads[t := th])
  }

  // A read of a file's memory: a fault when it is not allocated.
  function Touch(s: State, f: File): State {
    if f in s.files then s else s.(faulted := true)
  }

  function SetOwned(s: State, f: File, owned: bool): State {
    if f in s.files then s.(files := s.files[f := s.files[f].(owned := owned)])
    else s.(faulted := true)
  }

  function Inc(s: State, f: File): State {
    if f in s.files then s.(files := s.files[f := s.files[f].(count := s.files[f].count + 1)])
    else s.(faulted := true)
  }

  // The atomic part of GIT_REFCOUNT_DEC; the thread that reaches zero goes on
  // to inspect the owner.
  function Dec(s: State, t: nat, f: File, th: Thread): State
    requires t < |s.threads|
  {
    if f in s.files then
      var n := s.files[f].count - 1;
      Put(s.(files := s.files[f := s.files[f].(count := n)]), t,
          th.(dying := if n <= 0 then Some(f) else None))
    else s.(faulted := true)
  }

  // The rest of GIT_REFCOUNT_DEC: free the file unless it is owned.
  function ReapStep(s: State, t: nat): State
    requires t < |s.threads| && s.threads[t].dying.Some?
  {
    var f := s.threads[t].dying.value;
    var s1 := Put(s, t, s.threads[t].(dying := None));
    if f !in s.files then s1.(faulted := true)
    else if s.files[f].owned then s1
    else s1.(files := s.files - {f}, freed := s.freed + [f])
  }

  predicate Critical(pc: Pc) {
    pc.LookupRead? || pc.LookupInc? || pc.LookupUnlock? || pc.UpsertOwn? || pc.UpsertInc?
    || pc.UpsertSwap? || pc.UpsertDisown? || pc.UpsertDrop? || pc.UpsertUnlock?
    || pc.RemoveCas? || pc.RemoveUnlock?
  }

  predicate Locking(pc: Pc) {
    pc.LookupLock? || pc.UpsertLock? || pc.RemoveLock?
  }

  predicate Enabled(s: State, t: nat, a: Action)
    requires t < |s.threads|
  {
    var th := s.threads[t];
    if th.dying.Some? then a == Reap
    else match th.pc
      case Idle => a.Get? || (a.Release? && a.file in th.held)
      case LookupLock => (a == LockOk && s.lock.None?) || a == LockFails
      case UpsertLock => (a == LockOk && s.lock.None?) || a == LockFails
      case RemoveLock => (a == LockOk && s.lock.None?) || a == LockFails
      case Check => if th.file.None? then a == Proceed else a in {UpToDate, Stale, CheckFails}
      case Load => a in {LoadOk, LoadFails}
      case LoadParse => a in {LoadOk, LoadFails}
      case _ => a == Proceed
  }

  function Opt(o: Option<File>): (m: multiset<File>) {
    match o case None => multiset{} case Some(f) => multiset{f}
  }

  // The caller starts a query or releases a file; the end of a successful query.
  function IdleStep(s: State, t: nat, a: Action): State
    requires t < |s.threads|
  {
    var th := s.threads[t];
    match th.pc
    case Idle =>
      if a.Get? then
        Put(s, t, th.(pc := LookupLock, slot := a.slot, file := None, updated := None, taken := None))
      else if a.Release? then
        Dec(s, t, a.file, th.(held := th.held - multiset{a.file}))
      else s
    case DropLookup =>
      var th1 := th.(pc := Idle, file := None, updated := None, held := th.held + Opt(th.updated));
      if th.file.None? then Put(s, t, th1) else Dec(s, t, th.file.value, th1)
    case _ => s
  }

  // attr_cache_lookup, lines 181-199.
  function LookupStep(s: State, t: nat, a: Action): State
    requires t < |s.threads|
  {
    var th := s.threads[t];
    match th.pc
    case LookupLock =>
      if a == LockOk then Put(s.(lock := Some(t)), t, th.(pc := LookupRead))
      else Put(s, t, th.(pc := Idle))
    case LookupRead =>
      if th.slot.path !in s.entries then
        Put(s.(entries := s.entries + {th.slot.path}), t, th.(pc := LookupUnlock))
      else if th.slot in s.slots then
        Put(s, t, th.(pc := LookupInc, file := Some(s.slots[th.slot])))
      else
        Put(s, t, th.(pc := LookupUnlock))
    case LookupInc =>
      if th.file.None? then s else Put(Inc(s, th.file.value), t, th.(pc := LookupUnlock))
    case LookupUnlock =>
      Put(s.(lock := None), t, th.(pc := Check))
    case _ => s
  }

  // Lines 221-223: the staleness test and the load, outside the lock.
  function CheckStep(s: State, t: nat, a: Action): State
    requires t < |s.threads|
  {
    var th := s.threads[t];
    match th.pc
    case Check =>
      if th.file.None? then Put(s, t, th.(pc := Load))
      else if a == UpToDate then
        Put(Touch(s, th.file.value), t,
            th.(pc := Idle, file := None, held := th.held + Opt(th.file)))
      else
        Put(Touch(s, th.file.value), t, th.(pc := if a == Stale then Load else Failed))
    case Load =>
      if a == LoadOk then
        Put(s.(files := s.files[s.nextId := FileState(1, false, th.slot)], nextId := s.nextId + 1), t,
            th.(pc := LoadParse, updated := Some(s.nextId)))
      else Put(s, t, th.(pc := Failed))
    case LoadParse =>
      if th.updated.None? then s
      else if a == LoadOk then Put(Touch(s, th.updated.value), t, th.(pc := UpsertLock))
      else Dec(s, t, th.updated.value, th.(pc := Failed, updated := None))
    case _ => s
  }

  // attr_cache_upsert, lines 98-118, and the release on its failure, line 228.
  function UpsertStep(s: State, t: nat, a: Action): State
    requires t < |s.threads|
  {
    var th := s.threads[t];
    match th.pc
    case UpsertLock =>
      if a == LockOk then Put(s.(lock := Some(t)), t, th.(pc := UpsertOwn))
      else Put(s, t, th.(pc := UpsertAbort))
    case UpsertAbort =>
      if th.updated.None? then s
      else Dec(s, t, th.updated.value, th.(pc := Failed, updated := None))
    case UpsertOwn =>
      if th.updated.None? then s
      else if th.slot.path !in s.entries then s.(faulted := true)
      else Put(SetOwned(s, th.updated.value, true), t, th.(pc := UpsertInc))
    case UpsertInc =>
      if th.updated.None? then s else Put(Inc(s, th.updated.value), t, th.(pc := UpsertSwap))
    case UpsertSwap =>
      if th.updated.None? then s
      else if th.slot in s.slots then
        Put(s.(slots := s.slots[th.slot := th.updated.value]), t,
            th.(pc := UpsertDisown, taken := Some(s.slots[th.slot])))
      else
        Put(s.(slots := s.slots[th.slot := th.updated.value]), t, th.(pc := UpsertUnlock))
    case UpsertDisown =>
      if th.taken.None? then s else Put(SetOwned(s, th.taken.value, false), t, th.(pc := UpsertDrop))
    case UpsertDrop =>
      if th.taken.None? then s else Dec(s, t, th.taken.value, th.(pc := UpsertUnlock, taken := None))
    case UpsertUnlock =>
      Put(s.(lock := None), t, th.(pc := DropLookup))
    case _ => s
  }

  // Lines 236-248 with attr_cache_remove, lines 127-143.
  function RemoveStep(s: State, t: nat, a: Action): State
    requires t < |s.threads|
  {
    var th := s.threads[t];
    match th.pc
    case Failed =>
      Put(s, t, th.(pc := if th.file.None? then Idle else RemoveLock))
    case RemoveLock =>
      if a == LockOk then Put(s.(lock := Some(t)), t, th.(pc := RemoveCas))
      else Put(s, t, th.(pc := DropFile))
    case RemoveCas =>
      if th.file.None? then s
      else if th.file.value !in s.files then s.(faulted := true)
      else
        var home := s.files[th.file.value].home;
        if home.path in s.entries && home in s.slots && s.slots[home] == th.file.value then
          Put(s.(slots := s.slots - {home}), t, th.(pc := RemoveUnlock, taken := th.file))
        else
          Put(s, t, th.(pc := RemoveUnlock, taken := None))
    case RemoveUnlock =>
      Put(s.(lock := None), t, th.(pc := if th.taken.Some? then RemoveDisown else DropFile))
    case RemoveDisown =>
      if th.taken.None? then s else Put(SetOwned(s, th.taken.value, false), t, th.(pc := RemoveDrop))
    case RemoveDrop =>
      if th.taken.None? then s else Dec(s, t, th.taken.value, th.(pc := DropFile, taken := None))
    case DropFile =>
      if th.file.None? then s else Dec(s, t, th.file.value, th.(pc := Idle, file := None))
    case _ => s
  }

  function Do(s: State, t: nat, a: Action): State
    requires t < |s.threads| && Enabled(s, t, a)
  {
    var pc := s.threads[t].pc;
    if s.threads[t].dying.Some? then ReapStep(s, t)
    else if pc.Idle? || pc.DropLookup? then IdleStep(s, t, a)
    else if pc.LookupLock? || pc.LookupRead? || pc.LookupInc? || pc.LookupUnlock? then LookupStep(s, t, a)
    else if pc.Check? || pc.Load? || pc.LoadParse? then CheckStep(s, t, a)
    else if pc.UpsertLock? || pc.UpsertAbort? || pc.UpsertOwn? || pc.UpsertInc? || pc.UpsertSwap?
            || pc.UpsertDisown? || pc.UpsertDrop? || pc.UpsertUnlock? then UpsertStep(s, t, a)
    else RemoveStep(s, t, a)
  }

  ghost predicate Step(s: State, s': State) {
    exists t: nat, a :: t < |s.threads| && Enabled(s, t, a) && s' == Do(s, t, a)
  }

  predicate Quiet(th: Thread) {
    th.pc.Idle? && th.file.None? && th.updated.None? && th.taken.None? && th.dying.None?
    && th.held == multiset{}
  }

  // A cache that has just been created: threads that have done nothing yet.
  predicate Init(s: State) {
    s.lock.None? && s.entries == {} && s.slots == map[] && s.files == map[] && s.freed == []
    && !s.faulted && forall t :: 0 <= t < |s.threads| ==> Quiet(s.threads[t])
  }

  // A run: any finite interleaving from a fresh cache.
  ghost predicate Run(trace: seq<State>) {
    |trace| > 0 && Init(trace[0])
    && forall i :: 0 <= i < |trace| - 1 ==> Step(trace[i], trace[i + 1])
  }

  // ------------------------------------------------------- the accounting

  function Is(o: Option<File>, f: File): nat {
    if o == Some(f) then 1 else 0
  }

  // The references to `f` a thread is responsible for.  `file` is counted
  // once the increment under the lock has happened; `updated` carries a
  // second reference, the slot's, between the increment and the swap.
  function Refs(th: Thread, f: File): nat {
    th.held[f] + (if th.pc.LookupInc? then 0 else Is(th.file, f))
    + Is(th.updated, f) + (if th.pc.UpsertSwap? then Is(th.updated, f) else 0) + Is(th.taken, f)
  }

  function Total(ths: seq<Thread>, f: File): nat {
    if |ths| == 0 then 0 else Refs(ths[0], f) + Total(ths[1..], f)
  }

  predicate InSlot(s: State, f: File) {
    f in s.files && s.files[f].home in s.slots && s.slots[s.files[f].home] == f
  }

  function SlotRef(s: State, f: File): nat {
    if InSlot(s, f) then 1 else 0
  }

  // A file still known only to the thread that loaded it.
  predicate Private(th: Thread) {
    th.updated.Some? && (th.pc.LoadParse? || th.pc.UpsertLock? || th.pc.UpsertAbort?
                         || th.pc.UpsertOwn? || th.pc.UpsertInc? || th.pc.UpsertSwap?)
  }

  // Which locals are set at which point.
  predicate Shape(th: Thread) {
    && (th.file.Some? ==> !(th.pc.Idle? || th.pc.LookupLock? || th.pc.LookupRead?))
    && (th.updated.Some? <==>
        th.pc.LoadParse? || th.pc.UpsertLock? || th.pc.UpsertAbort? || th.pc.UpsertOwn? || th.pc.UpsertInc?
        || th.pc.UpsertSwap? || th.pc.UpsertDisown? || th.pc.UpsertDrop? || th.pc.UpsertUnlock? || th.pc.DropLookup?)
    && (th.taken.Some? ==>
          || th.pc.UpsertDisown? || th.pc.UpsertDrop?
          || th.pc.RemoveUnlock? || th.pc.RemoveDisown? || th.pc.RemoveDrop?)
    && (th.pc.UpsertDisown? || th.pc.UpsertDrop? || th.pc.RemoveDisown? || th.pc.RemoveDrop? ==> th.taken.Some?)
    && ((th.pc.LookupInc? || th.pc.RemoveLock? || th.pc.RemoveCas? || th.pc.RemoveUnlock? || th.pc.RemoveDisown?
         || th.pc.RemoveDrop? || th.pc.DropFile?) ==> th.file.Some?)
  }

  // A thread that keeps the owner mark of `f` legitimate while `f` is not in
  // its slot.
  predicate Keeps(th: Thread, f: File) {
    ((th.pc.UpsertInc? || th.pc.UpsertSwap?) && th.updated == Some(f))
    || ((th.pc.UpsertDisown? || th.pc.RemoveUnlock? || th.pc.RemoveDisown?) && th.taken == Some(f))
  }

  // ---------------------------------------------------------- the invariant

  ghost predicate ThreadOk(s: State, th: Thread) {
    && Shape(th)
    && (!(th.pc.Idle? || th.pc.LookupLock? || th.pc.LookupRead?) ==> th.slot.path in s.entries)
    && (th.pc.LookupInc? ==> th.slot in s.slots && th.file == Some(s.slots[th.slot]))
    && (Private(th) ==> var f := th.updated.value;
                        f in s.files && s.files[f].home == th.slot && !InSlot(s, f))
    && (th.dying.Some? ==> th.dying.value in s.files && s.files[th.dying.value].count == 0)
  }

  ghost predicate LockOk1(s: State) {
    && (s.lock.Some? ==> s.lock.value < |s.threads|)
    && forall t: nat | t < |s.threads| :: Critical(s.threads[t].pc) <==> s.lock == Some(t)
  }

  ghost predicate SlotsOk(s: State) {
    forall sl | sl in s.slots ::
      sl.path in s.entries && s.slots[sl] in s.files && s.files[s.slots[sl]].home == sl
  }

  ghost predicate CountsOk(s: State) {
    && (forall f | f in s.files :: s.files[f].count == SlotRef(s, f) + Total(s.threads, f))
    && (forall f: File | Total(s.threads, f) > 0 :: f in s.files)
  }

  ghost predicate OwnersOk(s: State) {
    forall f | f in s.files && s.files[f].owned ::
      InSlot(s, f) || exists t: nat :: t < |s.threads| && Keeps(s.threads[t], f)
  }

  ghost predicate DyingOk(s: State) {
    && (forall t: nat, u: nat | t < u < |s.threads| ::
          s.threads[t].dying.Some? ==> s.threads[t].dying != s.threads[u].dying)
    && (forall f | f in s.files && s.files[f].count == 0 ::
          exists t: nat :: t < |s.threads| && s.threads[t].dying == Some(f))
  }

  ghost predicate PrivateOk(s: State) {
    forall t: nat, u: nat | t < u < |s.threads| ::
      Private(s.threads[t]) && Private(s.threads[u]) ==> s.threads[t].updated != s.threads[u].updated
  }

  ghost predicate FreedOk(s: State) {
    && (forall f | f in s.files :: f < s.nextId)
    && (forall i | 0 <= i < |s.freed| :: s.freed[i] < s.nextId && s.freed[i] !in s.files)
    && (forall i, j | 0 <= i < j < |s.freed| :: s.freed[i] != s.freed[j])
  }

  ghost predicate ThreadsOk(s: State) {
    forall t: nat | t < |s.threads| :: ThreadOk(s, s.threads[t])
  }

  ghost predicate Inv(s: State) {
    !s.faulted && LockOk1(s) && SlotsOk(s) && CountsOk(s) && OwnersOk(s) && DyingOk(s)
    && PrivateOk(s) && FreedOk(s) && ThreadsOk(s)
  }

  // ------------------------------------------------------ sums over threads

  lemma {:induction false} TotalUpdate(ths: seq<Thread>, t: nat, th: Thread, f: File)
    requires t < |ths|
    ensures Total(ths[t := th], f) + Refs(ths[t], f) == Total(ths, f) + Refs(th, f)
  {
    if t == 0 {
      assert ths[t := th][1..] == ths[1..];
    } else {
      TotalUpdate(ths[1..], t - 1, th, f);
      assert ths[t := th][1..] == ths[1..][t - 1 := th];
    }
  }

  lemma {:induction false} TotalCovers(ths: seq<Thread>, t: nat, f: File)
    requires t < |ths|
    ensures Refs(ths[t], f) <= Total(ths, f)
  {
    if t > 0 { TotalCovers(ths[1..], t - 1, f); }
  }

  lemma {:induction false} TotalOfQuiet(ths: seq<Thread>, f: File)
    requires forall t :: 0 <= t < |ths| ==> Quiet(ths[t])
    ensures Total(ths, f) == 0
  {
    if |ths| > 0 {
      assert Quiet(ths[0]);
      TotalOfQuiet(ths[1..], f);
    }
  }

  lemma InitInv(s: State)
    requires Init(s)
    ensures Inv(s)
  {
    forall f: File ensures Total(s.threads, f) == 0 { TotalOfQuiet(s.threads, f); }
  }

  // ------------------------------------------- what a sound step of t does

  ghost predicate SoundCounts(s: State, s': State, th: Thread, th': Thread) {
    && (forall f | f in s.files && f in s'.files ::
          s'.files[f].count - SlotRef(s', f) - Refs(th', f) == s.files[f].count - SlotRef(s, f) - Refs(th, f))
    && (forall f | f in s'.files && f !in s.files ::
          Refs(th, f) == 0 && s'.files[f].count == SlotRef(s', f) + Refs(th', f))
    && (forall f | f !in s'.files :: Refs(th', f) == 0 && (f in s.files ==> s.files[f].count == 0))
  }

  ghost predicate SoundOwners(s: State, s': State, th: Thread, th': Thread) {
    forall f | f in s'.files && s'.files[f].owned && !InSlot(s', f) && !Keeps(th', f) ::
      f in s.files && s.files[f].owned && !InSlot(s, f) && !Keeps(th, f)
  }

  ghost predicate SoundDying(s: State, s': State, th: Thread, th': Thread) {
    && (forall f | f in s'.files && s'.files[f].count == 0 && th'.dying != Some(f) ::
          f in s.files && s.files[f].count == 0 && th.dying != Some(f))
    && (th'.dying.Some? ==> th'.dying.value in s.files && s.files[th'.dying.value].count > 0)
  }

  ghost predicate SoundFiles(s: State, s': State, th: Thread) {
    && s.entries <= s'.entries
    && (s'.slots == s.slots || Critical(th.pc))
    && (forall f: File | InSlot(s', f) && !InSlot(s, f) :: Private(th) && th.updated == Some(f))
    && (forall f | f in s.files :: f in s'.files || th.dying == Some(f))
    && (forall f | f in s.files && f in s'.files ::
          s'.files[f].home == s.files[f].home && (s.files[f].count == 0 ==> s'.files[f].count == 0))
  }

  ghost predicate SoundLock(s: State, s': State, t: nat, th: Thread, th': Thread) {
    if Critical(th'.pc) then s'.lock == Some(t) && (s.lock == None || s.lock == Some(t))
    else if Critical(th.pc) then s'.lock == None
    else s'.lock == s.lock
  }

  ghost predicate Sound(s: State, s': State, t: nat)
    requires t < |s.threads|
  {
    && |s'.threads| == |s.threads|
    && var th := s.threads[t]; var th' := s'.threads[t];
    && s'.threads == s.threads[t := th']
    && !s'.faulted
    && SoundLock(s, s', t, th, th')
    && SlotsOk(s')
    && SoundCounts(s, s', th, th')
    && SoundOwners(s, s', th, th')
    && SoundDying(s, s', th, th')
    && SoundFiles(s, s', th)
    && ThreadOk(s', th')
    && (Private(th') ==> th'.updated.value !in s.files || (Private(th) && th'.updated == th.updated))
    && FreedOk(s')
  }

  lemma CountsKept(s: State, s': State, t: nat)
    requires t < |s.threads| && CountsOk(s)
    requires |s'.threads| == |s.threads| && s'.threads == s.threads[t := s'.threads[t]]
    requires SoundCounts(s, s', s.threads[t], s'.threads[t])
    ensures CountsOk(s')
  {
    forall f: File
      ensures Total(s'.threads, f) + Refs(s.threads[t], f) == Total(s.threads, f) + Refs(s'.threads[t], f)
    {
      TotalUpdate(s.threads, t, s'.threads[t], f);
    }
  }

  lemma OwnersKept(s: State, s': State, t: nat)
    requires t < |s.threads| && OwnersOk(s)
    requires |s'.threads| == |s.threads| && s'.threads == s.threads[t := s'.threads[t]]
    requires SoundOwners(s, s', s.threads[t], s'.threads[t])
    ensures OwnersOk(s')
  {
    forall f | f in s'.files && s'.files[f].owned && !InSlot(s', f)
      ensures exists u: nat :: u < |s'.threads| && Keeps(s'.threads[u], f)
    {
      if Keeps(s'.threads[t], f) {
      } else {
        var u: nat :| u < |s.threads| && Keeps(s.threads[u], f);
        assert Keeps(s'.threads[u], f);
      }
    }
  }

  lemma DyingKept(s: State, s': State, t: nat)
    requires t < |s.threads| && DyingOk(s) && ThreadsOk(s)
    requires |s'.threads| == |s.threads| && s'.threads == s.threads[t := s'.threads[t]]
    requires SoundDying(s, s', s.threads[t], s'.threads[t])
    ensures DyingOk(s')
  {
    forall f | f in s'.files && s'.files[f].count == 0
      ensures exists u: nat :: u < |s'.threads| && s'.threads[u].dying == Some(f)
    {
      if s'.threads[t].dying != Some(f) {
        var u: nat :| u < |s.threads| && s.threads[u].dying == Some(f);
        assert s'.threads[u].dying == Some(f);
      }
    }
    forall u: nat | u < |s.threads| && u != t && s'.threads[t].dying.Some?
      ensures s'.threads[u].dying != s'.threads[t].dying
    {
      assert ThreadOk(s, s.threads[u]);
    }
  }

  lemma ThreadsKept(s: State, s': State, t: nat)
    requires t < |s.threads| && Inv(s) && Sound(s, s', t)
    ensures ThreadsOk(s')
  {
    forall u: nat | u < |s'.threads| && u != t
      ensures ThreadOk(s', s'.threads[u])
    {
      var th := s.threads[u];
      assert s'.threads[u] == th && ThreadOk(s, th);
      assert ThreadOk(s, s.threads[t]);
      if Private(th) {
        TotalCovers(s.threads, u, th.updated.value);
        assert Refs(th, th.updated.value) > 0;
      }
    }
  }

  lemma PrivateKept(s: State, s': State, t: nat)
    requires t < |s.threads| && PrivateOk(s) && ThreadsOk(s)
    requires |s'.threads| == |s.threads| && s'.threads == s.threads[t := s'.threads[t]]
    requires Private(s'.threads[t]) ==>
               s'.threads[t].updated.value !in s.files
               || (Private(s.threads[t]) && s'.threads[t].updated == s.threads[t].updated)
    ensures PrivateOk(s')
  {
    forall u: nat | u < |s.threads| && u != t && Private(s'.threads[t]) && Private(s'.threads[u])
      ensures s'.threads[t].updated != s'.threads[u].updated
    {
      assert ThreadOk(s, s.threads[u]);
    }
  }

  lemma LockKept(s: State, s': State, t: nat)
    requires t < |s.threads| && LockOk1(s)
    requires |s'.threads| == |s.threads| && s'.threads == s.threads[t := s'.threads[t]]
    requires SoundLock(s, s', t, s.threads[t], s'.threads[t])
    ensures LockOk1(s')
  {
  }

  lemma SoundKeepsInv(s: State, s': State, t: nat)
    requires t < |s.threads| && Inv(s) && Sound(s, s', t)
    ensures Inv(s')
  {
    CountsKept(s, s', t);
    OwnersKept(s, s', t);
    DyingKept(s, s', t);
    ThreadsKept(s, s', t);
    PrivateKept(s, s', t);
    LockKept(s, s', t);
  }

  // What a step may use: the thread's own facts and the accounting of the
  // files it refers to.
  ghost predicate Knows(s: State, t: nat) {
    && t < |s.threads|
    && !s.faulted
    && SlotsOk(s)
    && FreedOk(s)
    && ThreadOk(s, s.threads[t])
    && (Critical(s.threads[t].pc) <==> s.lock == Some(t))
    && (forall f: File | f !in s.files :: Refs(s.threads[t], f) == 0)
    && (forall f | f in s.files :: s.files[f].count >= SlotRef(s, f) + Refs(s.threads[t], f))
  }

  lemma InvKnows(s: State, t: nat)
    requires Inv(s) && t < |s.threads|
    ensures Knows(s, t)
  {
    forall f: File ensures Refs(s.threads[t], f) <= Total(s.threads, f) { TotalCovers(s.threads, t, f); }
  }

  lemma DyingUnowned(s: State, t: nat)
    requires Inv(s) && t < |s.threads| && s.threads[t].dying.Some?
    ensures var f := s.threads[t].dying.value; f in s.files && !s.files[f].owned
  {
    var f := s.threads[t].dying.value;
    assert ThreadOk(s, s.threads[t]);
    if s.files[f].owned {
      assert !InSlot(s, f);
      var u: nat :| u < |s.threads| && Keeps(s.threads[u], f);
      TotalCovers(s.threads, u, f);
      assert false;
    }
  }

  lemma ReapFrame(s: State, t: nat)
    requires Knows(s, t) && s.threads[t].dying.Some?
    requires !s.files[s.threads[t].dying.value].owned
    ensures var s', f := ReapStep(s, t), s.threads[t].dying.value;
      && (forall g: File :: InSlot(s', g) <==> InSlot(s, g))
      && (forall g: File :: Refs(s'.threads[t], g) == Refs(s.threads[t], g))
      && (forall g: File :: Keeps(s'.threads[t], g) == Keeps(s.threads[t], g))
      && Refs(s.threads[t], f) == 0 && !InSlot(s, f)
      && (Private(s.threads[t]) ==> s.threads[t].updated != Some(f))
  {
    hide FreedOk;
  }

  lemma ReapCounts(s: State, t: nat)
    requires Knows(s, t) && s.threads[t].dying.Some?
    requires !s.files[s.threads[t].dying.value].owned
    ensures var s' := ReapStep(s, t);
      && SoundCounts(s, s', s.threads[t], s'.threads[t]) && SoundOwners(s, s', s.threads[t], s'.threads[t])
      && SoundDying(s, s', s.threads[t], s'.threads[t])
  {
    hide FreedOk, InSlot, Refs, Keeps, SlotsOk;
    ReapFrame(s, t);
  }

  lemma ReapFiles(s: State, t: nat)
    requires Knows(s, t) && s.threads[t].dying.Some?
    requires !s.files[s.threads[t].dying.value].owned
    ensures var s' := ReapStep(s, t);
      SoundFiles(s, s', s.threads[t]) && SlotsOk(s') && FreedOk(s') && ThreadOk(s', s'.threads[t])
  {
    hide Refs, Keeps, SlotRef;
    ReapFrame(s, t);
  }

  lemma ReapSound(s: State, t: nat)
    requires Knows(s, t) && s.threads[t].dying.Some?
    requires !s.files[s.threads[t].dying.value].owned
    ensures Sound(s, ReapStep(s, t), t)
  {
    hide SoundCounts, SoundOwners, SoundDying, SoundFiles, SlotsOk, FreedOk;
    ReapCounts(s, t);
    ReapFiles(s, t);
  }

  // A step that only moves the thread on, taking or leaving the lock.
  lemma MoveSound(s: State, t: nat, th': Thread, lock: Option<nat>, entries: set<string>)
    requires Knows(s, t)
    requires s.threads[t].dying.None? && th'.dying.None?
    requires forall f: File :: Refs(th', f) == Refs(s.threads[t], f)
    requires forall f: File :: Keeps(s.threads[t], f) ==> Keeps(th', f)
    requires Private(th') ==> Private(s.threads[t]) && th'.updated == s.threads[t].updated
    requires s.entries <= entries
    requires ThreadOk(s.(entries := entries), th')
    requires SoundLock(s, s.(lock := lock), t, s.threads[t], th')
    ensures Sound(s, Put(s.(lock := lock, entries := entries), t, th'), t)
  {
    var s' := Put(s.(lock := lock, entries := entries), t, th');
    assert forall g: File :: InSlot(s', g) <==> InSlot(s, g);
  }

  // How a decrement differs from the step's change of locals.
  lemma DecFiles(s: State, t: nat, f: File, th': Thread)
    requires Knows(s, t)
    requires Refs(s.threads[t], f) > 0
    ensures var s' := Dec(s, t, f, th');
      && f in s.files && s.files[f].count > 0
      && SoundFiles(s, s', s.threads[t]) && SlotsOk(s') && FreedOk(s')
      && forall g: File :: InSlot(s', g) <==> InSlot(s, g)
  {
  }

  lemma DecCounts(s: State, t: nat, f: File, th': Thread)
    requires Knows(s, t)
    requires s.threads[t].dying.None?
    requires Refs(s.threads[t], f) == Refs(th', f) + 1
    requires forall g: File :: g != f ==> Refs(th', g) == Refs(s.threads[t], g)
    requires forall g: File :: Keeps(s.threads[t], g) ==> Keeps(th', g)
    ensures var s' := Dec(s, t, f, th');
      var th1 := s'.threads[t];
      SoundCounts(s, s', s.threads[t], th1) && SoundOwners(s, s', s.threads[t], th1)
          && SoundDying(s, s', s.threads[t], th1)
  {
    DecFiles(s, t, f, th');
    var th1 := Dec(s, t, f, th').threads[t];
    assert forall g: File :: Refs(th1, g) == Refs(th', g);
    assert forall g: File :: Keeps(th1, g) == Keeps(th', g);
  }

  lemma DecSound(s: State, t: nat, f: File, th': Thread)
    requires Knows(s, t)
    requires s.threads[t].dying.None?
    requires Refs(s.threads[t], f) == Refs(th', f) + 1
    requires forall g: File :: g != f ==> Refs(th', g) == Refs(s.threads[t], g)
    requires forall g: File :: Keeps(s.threads[t], g) ==> Keeps(th', g)
    requires !Private(th')
    requires ThreadOk(s, th'.(dying := None))
    requires Critical(th'.pc) == Critical(s.threads[t].pc)
    ensures Sound(s, Dec(s, t, f, th'), t)
  {
    DecFiles(s, t, f, th');
    DecCounts(s, t, f, th');
  }

  lemma IncCounts(s: State, t: nat, f: File, th': Thread)
    requires Knows(s, t)
    requires s.threads[t].dying.None? && th'.dying.None?
    requires f in s.files && s.files[f].count > 0
    requires Refs(th', f) == Refs(s.threads[t], f) + 1
    requires forall g: File :: g != f ==> Refs(th', g) == Refs(s.threads[t], g)
    requires forall g: File :: Keeps(s.threads[t], g) ==> Keeps(th', g)
    ensures var s' := Put(Inc(s, f), t, th');
      SoundCounts(s, s', s.threads[t], th') && SoundOwners(s, s', s.threads[t], th')
  {
    var s' := Put(Inc(s, f), t, th');
    assert forall g: File :: InSlot(s', g) <==> InSlot(s, g);
  }

  lemma IncFiles(s: State, t: nat, f: File, th': Thread)
    requires Knows(s, t)
    requires s.threads[t].dying.None? && th'.dying.None?
    requires f in s.files && s.files[f].count > 0 && ThreadOk(s, th')
    ensures var s' := Put(Inc(s, f), t, th');
      && SoundDying(s, s', s.threads[t], th') && SoundFiles(s, s', s.threads[t])
      && SlotsOk(s') && FreedOk(s') && ThreadOk(s', th')
  {
    var s' := Put(Inc(s, f), t, th');
    assert forall g: File :: InSlot(s', g) <==> InSlot(s, g);
  }

  lemma IncSound(s: State, t: nat, f: File, th': Thread)
    requires Knows(s, t)
    requires s.threads[t].dying.None? && th'.dying.None?
    requires f in s.files && s.files[f].count > 0
    requires Refs(th', f) == Refs(s.threads[t], f) + 1
    requires forall g: File :: g != f ==> Refs(th', g) == Refs(s.threads[t], g)
    requires forall g: File :: Keeps(s.threads[t], g) ==> Keeps(th', g)
    requires Private(th') ==> Private(s.threads[t]) && th'.updated == s.threads[t].updated
    requires ThreadOk(s, th')
    requires Critical(th'.pc) && Critical(s.threads[t].pc)
    ensures Sound(s, Put(Inc(s, f), t, th'), t)
  {
    hide SoundCounts, SoundOwners, SoundDying, SoundFiles, SlotsOk, FreedOk, ThreadOk;
    IncCounts(s, t, f, th');
    IncFiles(s, t, f, th');
  }

  lemma OwnCounts(s: State, t: nat, f: File, owned: bool, th': Thread)
    requires Knows(s, t)
    requires s.threads[t].dying.None? && th'.dying.None?
    requires f in s.files
    requires forall g: File :: Refs(th', g) == Refs(s.threads[t], g)
    requires forall g: File :: g != f && Keeps(s.threads[t], g) ==> Keeps(th', g)
    requires owned ==> Keeps(th', f)
    ensures var s' := Put(SetOwned(s, f, owned), t, th');
      && (forall g: File :: InSlot(s', g) <==> InSlot(s, g))
      && SoundCounts(s, s', s.threads[t], th') && SoundOwners(s, s', s.threads[t], th')
  {
    var s' := Put(SetOwned(s, f, owned), t, th');
    assert forall g: File :: InSlot(s', g) <==> InSlot(s, g);
  }

  lemma OwnFiles(s: State, t: nat, f: File, owned: bool, th': Thread)
    requires Knows(s, t)
    requires s.threads[t].dying.None? && th'.dying.None?
    requires f in s.files && ThreadOk(s, th')
    ensures var s' := Put(SetOwned(s, f, owned), t, th');
      && SoundDying(s, s', s.threads[t], th') && SoundFiles(s, s', s.threads[t])
      && SlotsOk(s') && FreedOk(s') && ThreadOk(s', th')
  {
    var s' := Put(SetOwned(s, f, owned), t, th');
    assert forall g: File :: InSlot(s', g) <==> InSlot(s, g);
  }

  lemma OwnSound(s: State, t: nat, f: File, owned: bool, th': Thread)
    requires Knows(s, t)
    requires s.threads[t].dying.None? && th'.dying.None?
    requires f in s.files
    requires forall g: File :: Refs(th', g) == Refs(s.threads[t], g)
    requires forall g: File :: g != f && Keeps(s.threads[t], g) ==> Keeps(th', g)
    requires owned ==> Keeps(th', f)
    requires Private(th') ==> Private(s.threads[t]) && th'.updated == s.threads[t].updated
    requires ThreadOk(s, th')
    requires Critical(th'.pc) == Critical(s.threads[t].pc)
    ensures Sound(s, Put(SetOwned(s, f, owned), t, th'), t)
  {
    hide SoundCounts, SoundOwners, SoundDying, SoundFiles, SlotsOk, FreedOk, ThreadOk;
    OwnCounts(s, t, f, owned, th');
    OwnFiles(s, t, f, owned, th');
  }

  lemma AllocCounts(s: State, t: nat)
    requires Knows(s, t)
    requires s.threads[t].dying.None? && s.threads[t].pc.Load?
    ensures var s' := CheckStep(s, t, LoadOk);
      SoundCounts(s, s', s.threads[t], s'.threads[t]) && SoundFiles(s, s', s.threads[t])
  {
    var th := s.threads[t];
    var s' := CheckStep(s, t, LoadOk);
    var th' := s'.threads[t];
    var f := s.nextId;
    assert f !in s.files;
    assert Refs(th', f) == 1 && forall g: File :: g != f ==> Refs(th', g) == Refs(th, g);
    assert forall g: File :: InSlot(s', g) <==> InSlot(s, g);
  }

  lemma AllocFiles(s: State, t: nat)
    requires Knows(s, t)
    requires s.threads[t].dying.None? && s.threads[t].pc.Load?
    ensures var s' := CheckStep(s, t, LoadOk); s.nextId !in s.files && SlotsOk(s') && FreedOk(s')
  {
    hide Refs, SlotRef, ThreadOk, SoundFiles;
  }

  lemma AllocThread(s: State, t: nat)
    requires Knows(s, t)
    requires s.threads[t].dying.None? && s.threads[t].pc.Load?
    ensures var s' := CheckStep(s, t, LoadOk);
      && SoundOwners(s, s', s.threads[t], s'.threads[t]) && SoundDying(s, s', s.threads[t], s'.threads[t])
      && ThreadOk(s', s'.threads[t])
  {
    hide Refs, SlotRef;
    var s' := CheckStep(s, t, LoadOk);
    assert s.nextId !in s.files;
    assert forall g: File :: InSlot(s', g) <==> InSlot(s, g);
  }

  lemma AllocSound(s: State, t: nat)
    requires Knows(s, t)
    requires s.threads[t].dying.None? && s.threads[t].pc.Load?
    ensures Sound(s, CheckStep(s, t, LoadOk), t)
  {
    hide SoundCounts, SoundOwners, SoundDying, SoundFiles, SlotsOk, FreedOk, ThreadOk;
    AllocCounts(s, t);
    AllocFiles(s, t);
    AllocThread(s, t);
  }

  // What the swap changes for the new file, for the one it displaces, and for
  // no other.
  lemma SwapFrame(s: State, t: nat)
    requires Knows(s, t)
    requires s.threads[t].dying.None? && s.threads[t].pc.UpsertSwap?
    ensures var s', th, f := UpsertStep(s, t, Proceed), s.threads[t], s.threads[t].updated.value;
      var th' := s'.threads[t];
      && s'.files == s.files && f in s.files && InSlot(s', f) && !InSlot(s, f) && Refs(th', f) == Refs(th, f) - 1
      && forall h: File :: h != f ==>
           if th.slot in s.slots && h == s.slots[th.slot]
           then (h in s.files && !InSlot(s', h) && InSlot(s, h)
                 && Refs(th', h) == Refs(th, h) + 1 && Keeps(th', h))
           else InSlot(s', h) == InSlot(s, h) && Refs(th', h) == Refs(th, h) && !Keeps(th, h)
  {
    hide FreedOk, SlotRef;
  }

  lemma SwapCounts(s: State, t: nat)
    requires Knows(s, t)
    requires s.threads[t].dying.None? && s.threads[t].pc.UpsertSwap?
    ensures var s' := UpsertStep(s, t, Proceed);
      SoundCounts(s, s', s.threads[t], s'.threads[t]) && SoundOwners(s, s', s.threads[t], s'.threads[t])
  {
    hide FreedOk, SlotsOk, InSlot, Refs, Keeps, UpsertStep, ThreadOk;
    SwapFrame(s, t);
  }

  lemma SwapFiles(s: State, t: nat)
    requires Knows(s, t)
    requires s.threads[t].dying.None? && s.threads[t].pc.UpsertSwap?
    ensures var s' := UpsertStep(s, t, Proceed);
      SoundFiles(s, s', s.threads[t]) && SlotsOk(s') && FreedOk(s')
  {
    hide Refs, SlotRef, Keeps;
  }

  lemma SwapThread(s: State, t: nat)
    requires Knows(s, t)
    requires s.threads[t].dying.None? && s.threads[t].pc.UpsertSwap?
    ensures var s' := UpsertStep(s, t, Proceed);
      SoundDying(s, s', s.threads[t], s'.threads[t]) && ThreadOk(s', s'.threads[t])
  {
  }

  lemma SwapShape(s: State, t: nat)
    requires Knows(s, t) && s.threads[t].pc.UpsertSwap?
    ensures var f := s.threads[t].updated; f.Some? && f.value in s.files && s.threads[t].slot.path in s.entries
  {
  }

  lemma SwapSound(s: State, t: nat)
    requires Knows(s, t)
    requires s.threads[t].dying.None? && s.threads[t].pc.UpsertSwap?
    ensures Sound(s, UpsertStep(s, t, Proceed), t)
  {
    hide SoundCounts, SoundOwners, SoundDying, SoundFiles, SlotsOk, FreedOk, ThreadOk;
    SwapCounts(s, t);
    SwapFiles(s, t);
    SwapThread(s, t);
    SwapShape(s, t);
  }

  lemma CasCounts(s: State, t: nat)
    requires Knows(s, t)
    requires s.threads[t].dying.None? && s.threads[t].pc.RemoveCas?
    ensures var s' := RemoveStep(s, t, Proceed);
      SoundCounts(s, s', s.threads[t], s'.threads[t]) && SoundOwners(s, s', s.threads[t], s'.threads[t])
  {
    var th := s.threads[t];
    var f := th.file.value;
    assert Refs(th, f) > 0;
    var s' := RemoveStep(s, t, Proceed);
    var th' := s'.threads[t];
    if InSlot(s, f) {
      assert Refs(th', f) == Refs(th, f) + 1 && Keeps(th', f) && !InSlot(s', f);
      assert forall h: File :: h != f ==> InSlot(s', h) == InSlot(s, h) && Refs(th', h) == Refs(th, h) && !Keeps(th, h);
    } else {
      assert forall h: File :: InSlot(s', h) == InSlot(s, h) && Refs(th', h) == Refs(th, h) && !Keeps(th, h);
    }
  }

  lemma CasFiles(s: State, t: nat)
    requires Knows(s, t)
    requires s.threads[t].dying.None? && s.threads[t].pc.RemoveCas?
    ensures var s' := RemoveStep(s, t, Proceed);
      && SoundDying(s, s', s.threads[t], s'.threads[t]) && SoundFiles(s, s', s.threads[t])
      && SlotsOk(s') && FreedOk(s') && ThreadOk(s', s'.threads[t])
  {
    assert Refs(s.threads[t], s.threads[t].file.value) > 0;
  }

  lemma CasSound(s: State, t: nat)
    requires Knows(s, t)
    requires s.threads[t].dying.None? && s.threads[t].pc.RemoveCas?
    ensures Sound(s, RemoveStep(s, t, Proceed), t)
  {
    hide SoundCounts, SoundOwners, SoundDying, SoundFiles, SlotsOk, FreedOk;
    CasCounts(s, t);
    CasFiles(s, t);
    assert Refs(s.threads[t], s.threads[t].file.value) > 0;
  }

  // ----------------------------------------------------- routine by routine

  lemma GetSound(s: State, t: nat, a: Action)
    requires Knows(s, t) && s.threads[t].dying.None? && Enabled(s, t, a) && s.threads[t].pc.Idle?
    ensures Sound(s, IdleStep(s, t, a), t)
  {
    hide Sound, FreedOk, SlotsOk, SlotRef;
    var th := s.threads[t];
    if a.Get? {
      MoveSound(s, t, th.(pc := LookupLock, slot := a.slot, file := None, updated := None, taken := None), s.lock,
          s.entries);
    } else {
      DecSound(s, t, a.file, th.(held := th.held - multiset{a.file}));
    }
  }

  lemma DropLookupSound(s: State, t: nat, a: Action)
    requires Knows(s, t) && s.threads[t].dying.None? && s.threads[t].pc.DropLookup?
    ensures Sound(s, IdleStep(s, t, a), t)
  {
    hide Sound, FreedOk, SlotsOk, SlotRef;
    var th := s.threads[t];
    var th1 := th.(pc := Idle, file := None, updated := None, held := th.held + Opt(th.updated));
    if th.file.None? {
      MoveSound(s, t, th1, s.lock, s.entries);
    } else {
      DecSound(s, t, th.file.value, th1);
    }
  }

  lemma IdleSound(s: State, t: nat, a: Action)
    requires Knows(s, t) && s.threads[t].dying.None? && Enabled(s, t, a)
    requires s.threads[t].pc.Idle? || s.threads[t].pc.DropLookup?
    ensures Sound(s, IdleStep(s, t, a), t)
  {
    hide Sound, FreedOk, SlotsOk, SlotRef, IdleStep, ThreadOk;
    if s.threads[t].pc.DropLookup? { DropLookupSound(s, t, a); } else { GetSound(s, t, a); }
  }

  lemma LookupReadSound(s: State, t: nat, a: Action)
    requires Knows(s, t) && s.threads[t].dying.None? && s.threads[t].pc.LookupRead?
    ensures Sound(s, LookupStep(s, t, a), t)
  {
    hide Sound, FreedOk, SlotRef;
    var th := s.threads[t];
    if th.slot.path !in s.entries {
      MoveSound(s, t, th.(pc := LookupUnlock), s.lock, s.entries + {th.slot.path});
    } else if th.slot in s.slots {
      MoveSound(s, t, th.(pc := LookupInc, file := Some(s.slots[th.slot])), s.lock, s.entries);
    } else {
      MoveSound(s, t, th.(pc := LookupUnlock), s.lock, s.entries);
    }
  }

  lemma LookupIncSound(s: State, t: nat, a: Action)
    requires Knows(s, t) && s.threads[t].dying.None? && s.threads[t].pc.LookupInc?
    ensures Sound(s, LookupStep(s, t, a), t)
  {
    hide Sound, FreedOk;
    var th := s.threads[t];
    IncSound(s, t, th.file.value, th.(pc := LookupUnlock));
  }

  lemma LookupLockSound(s: State, t: nat, a: Action)
    requires Knows(s, t) && s.threads[t].dying.None? && Enabled(s, t, a)
    requires s.threads[t].pc.LookupLock? || s.threads[t].pc.LookupUnlock?
    ensures Sound(s, LookupStep(s, t, a), t)
  {
    hide Sound, FreedOk, SlotsOk, SlotRef;
    var th := s.threads[t];
    if th.pc.LookupUnlock? {
      MoveSound(s, t, th.(pc := Check), None, s.entries);
    } else if a == LockOk {
      MoveSound(s, t, th.(pc := LookupRead), Some(t), s.entries);
    } else {
      MoveSound(s, t, th.(pc := Idle), s.lock, s.entries);
    }
  }

  lemma LookupSound(s: State, t: nat, a: Action)
    requires Knows(s, t) && s.threads[t].dying.None? && Enabled(s, t, a)
    requires var pc := s.threads[t].pc; pc.LookupLock? || pc.LookupRead? || pc.LookupInc? || pc.LookupUnlock?
    ensures Sound(s, LookupStep(s, t, a), t)
  {
    hide Sound, FreedOk, SlotsOk, SlotRef, LookupStep, ThreadOk;
    var pc := s.threads[t].pc;
    if pc.LookupRead? {
      LookupReadSound(s, t, a);
    } else if pc.LookupInc? {
      LookupIncSound(s, t, a);
    } else {
      LookupLockSound(s, t, a);
    }
  }

  lemma StaleSound(s: State, t: nat, a: Action)
    requires Knows(s, t) && s.threads[t].dying.None? && Enabled(s, t, a) && s.threads[t].pc.Check?
    ensures Sound(s, CheckStep(s, t, a), t)
  {
    hide Sound, FreedOk, SlotsOk;
    var th := s.threads[t];
    if th.file.None? {
      MoveSound(s, t, th.(pc := Load), s.lock, s.entries);
    } else {
      assert Refs(th, th.file.value) > 0;
      if a == UpToDate {
        MoveSound(s, t, th.(pc := Idle, file := None, held := th.held + Opt(th.file)), s.lock, s.entries);
      } else {
        MoveSound(s, t, th.(pc := if a == Stale then Load else Failed), s.lock, s.entries);
      }
    }
  }

  lemma LoadSound(s: State, t: nat, a: Action)
    requires Knows(s, t) && s.threads[t].dying.None? && Enabled(s, t, a)
    requires s.threads[t].pc.Load? || s.threads[t].pc.LoadParse?
    ensures Sound(s, CheckStep(s, t, a), t)
  {
    hide Sound, FreedOk, SlotsOk, SlotRef;
    var th := s.threads[t];
    if th.pc.Load? {
      if a == LoadOk { AllocSound(s, t); } else { MoveSound(s, t, th.(pc := Failed), s.lock, s.entries); }
    } else if a == LoadOk {
      MoveSound(s, t, th.(pc := UpsertLock), s.lock, s.entries);
    } else {
      DecSound(s, t, th.updated.value, th.(pc := Failed, updated := None));
    }
  }

  lemma CheckSound(s: State, t: nat, a: Action)
    requires Knows(s, t) && s.threads[t].dying.None? && Enabled(s, t, a)
    requires s.threads[t].pc.Check? || s.threads[t].pc.Load? || s.threads[t].pc.LoadParse?
    ensures Sound(s, CheckStep(s, t, a), t)
  {
    hide Sound, FreedOk, SlotsOk, SlotRef, CheckStep, ThreadOk;
    if s.threads[t].pc.Check? { StaleSound(s, t, a); } else { LoadSound(s, t, a); }
  }

  lemma UpsertLockSound(s: State, t: nat, a: Action)
    requires Knows(s, t) && s.threads[t].dying.None? && Enabled(s, t, a)
    requires s.threads[t].pc.UpsertLock? || s.threads[t].pc.UpsertAbort?
    ensures Sound(s, UpsertStep(s, t, a), t)
  {
    hide Sound, FreedOk, SlotsOk, SlotRef;
    var th := s.threads[t];
    if th.pc.UpsertAbort? {
      DecSound(s, t, th.updated.value, th.(pc := Failed, updated := None));
    } else if a == LockOk {
      MoveSound(s, t, th.(pc := UpsertOwn), Some(t), s.entries);
    } else {
      MoveSound(s, t, th.(pc := UpsertAbort), s.lock, s.entries);
    }
  }

  lemma UpsertOwnSound(s: State, t: nat, a: Action)
    requires Knows(s, t) && s.threads[t].dying.None?
    requires s.threads[t].pc.UpsertOwn? || s.threads[t].pc.UpsertInc?
    ensures Sound(s, UpsertStep(s, t, a), t)
  {
    hide Sound, FreedOk, SlotsOk;
    var th := s.threads[t];
    if th.pc.UpsertOwn? {
      OwnSound(s, t, th.updated.value, true, th.(pc := UpsertInc));
    } else {
      assert Refs(th, th.updated.value) > 0;
      IncSound(s, t, th.updated.value, th.(pc := UpsertSwap));
    }
  }

  lemma UpsertOpens(s: State, t: nat, a: Action)
    requires Knows(s, t) && s.threads[t].dying.None? && Enabled(s, t, a)
    requires var pc := s.threads[t].pc; pc.UpsertLock? || pc.UpsertAbort? || pc.UpsertOwn? || pc.UpsertInc?
    ensures Sound(s, UpsertStep(s, t, a), t)
  {
    hide Sound, FreedOk, SlotsOk, SlotRef, UpsertStep, ThreadOk;
    var pc := s.threads[t].pc;
    if pc.UpsertOwn? || pc.UpsertInc? { UpsertOwnSound(s, t, a); } else { UpsertLockSound(s, t, a); }
  }

  lemma UpsertCloses(s: State, t: nat, a: Action)
    requires Knows(s, t) && s.threads[t].dying.None? && Enabled(s, t, a)
    requires var pc := s.threads[t].pc; pc.UpsertSwap? || pc.UpsertDisown? || pc.UpsertDrop? || pc.UpsertUnlock?
    ensures Sound(s, UpsertStep(s, t, a), t)
  {
    hide Sound, FreedOk;
    var th := s.threads[t];
    if th.pc.UpsertSwap? {
      SwapSound(s, t);
    } else if th.pc.UpsertDisown? {
      assert Refs(th, th.taken.value) > 0;
      OwnSound(s, t, th.taken.value, false, th.(pc := UpsertDrop));
    } else if th.pc.UpsertDrop? {
      DecSound(s, t, th.taken.value, th.(pc := UpsertUnlock, taken := None));
    } else {
      MoveSound(s, t, th.(pc := DropLookup), None, s.entries);
    }
  }

  lemma RemoveOpens(s: State, t: nat, a: Action)
    requires Knows(s, t) && s.threads[t].dying.None? && Enabled(s, t, a)
    requires var pc := s.threads[t].pc; pc.Failed? || pc.RemoveLock? || pc.RemoveCas? || pc.RemoveUnlock?
    ensures Sound(s, RemoveStep(s, t, a), t)
  {
    hide Sound, FreedOk;
    var th := s.threads[t];
    if th.pc.Failed? {
      MoveSound(s, t, th.(pc := if th.file.None? then Idle else RemoveLock), s.lock, s.entries);
    } else if th.pc.RemoveLock? {
      if a == LockOk { MoveSound(s, t, th.(pc := RemoveCas), Some(t), s.entries); }
      else { MoveSound(s, t, th.(pc := DropFile), s.lock, s.entries); }
    } else if th.pc.RemoveCas? {
      CasSound(s, t);
    } else {
      MoveSound(s, t, th.(pc := if th.taken.Some? then RemoveDisown else DropFile), None, s.entries);
    }
  }

  lemma RemoveDropSound(s: State, t: nat, a: Action)
    requires Knows(s, t) && s.threads[t].dying.None?
    requires s.threads[t].pc.RemoveDrop? || s.threads[t].pc.DropFile?
    ensures Sound(s, RemoveStep(s, t, a), t)
  {
    hide Sound, FreedOk, SlotsOk, SlotRef;
    var th := s.threads[t];
    if th.pc.RemoveDrop? {
      DecSound(s, t, th.taken.value, th.(pc := DropFile, taken := None));
    } else {
      DecSound(s, t, th.file.value, th.(pc := Idle, file := None));
    }
  }

  lemma RemoveDisownSound(s: State, t: nat, a: Action)
    requires Knows(s, t) && s.threads[t].dying.None? && s.threads[t].pc.RemoveDisown?
    ensures Sound(s, RemoveStep(s, t, a), t)
  {
    hide Sound, FreedOk, SlotsOk;
    var th := s.threads[t];
    assert Refs(th, th.taken.value) > 0;
    OwnSound(s, t, th.taken.value, false, th.(pc := RemoveDrop));
  }

  lemma RemoveCloses(s: State, t: nat, a: Action)
    requires Knows(s, t) && s.threads[t].dying.None? && Enabled(s, t, a)
    requires var pc := s.threads[t].pc; pc.RemoveDisown? || pc.RemoveDrop? || pc.DropFile?
    ensures Sound(s, RemoveStep(s, t, a), t)
  {
    hide Sound, FreedOk, SlotsOk, SlotRef, RemoveStep, ThreadOk;
    if s.threads[t].pc.RemoveDisown? { RemoveDisownSound(s, t, a); } else { RemoveDropSound(s, t, a); }
  }

  // ------------------------------------------------------- the main results

  // Every step of every thread keeps the invariant.
  lemma StepKeepsInv(s: State, t: nat, a: Action)
    requires Inv(s) && t < |s.threads| && Enabled(s, t, a)
    ensures Inv(Do(s, t, a))
  {
    InvKnows(s, t);
    var pc := s.threads[t].pc;
    if s.threads[t].dying.Some? {
      DyingUnowned(s, t);
      ReapSound(s, t);
    } else if pc.Idle? || pc.DropLookup? {
      IdleSound(s, t, a);
    } else if pc.LookupLock? || pc.LookupRead? || pc.LookupInc? || pc.LookupUnlock? {
      LookupSound(s, t, a);
    } else if pc.Check? || pc.Load? || pc.LoadParse? {
      CheckSound(s, t, a);
    } else if pc.UpsertLock? || pc.UpsertAbort? || pc.UpsertOwn? || pc.UpsertInc? {
      UpsertOpens(s, t, a);
    } else if pc.UpsertSwap? || pc.UpsertDisown? || pc.UpsertDrop? || pc.UpsertUnlock? {
      UpsertCloses(s, t, a);
    } else if pc.Failed? || pc.RemoveLock? || pc.RemoveCas? || pc.RemoveUnlock? {
      RemoveOpens(s, t, a);
    } else {
      RemoveCloses(s, t, a);
    }
    SoundKeepsInv(s, Do(s, t, a), t);
  }

  // The states of any run satisfy the invariant.
  lemma {:induction false} RunInv(trace: seq<State>, n: nat)
    requires Run(trace) && n < |trace|
    ensures Inv(trace[n])
  {
    if n == 0 {
      InitInv(trace[0]);
    } else {
      RunInv(trace, n - 1);
      assert Step(trace[n - 1], trace[n - 1 + 1]);
      var t: nat, a :| t < |trace[n - 1].threads| && Enabled(trace[n - 1], t, a) && trace[n] == Do(trace[n - 1], t, a);
      StepKeepsInv(trace[n - 1], t, a);
    }
  }

  // In every interleaving: nothing unallocated is ever touched, the count of
  // every live file is its slot's reference plus the threads' references, a
  // file in a slot or referred to by a thread has not been freed, no file is
  // freed twice, and a slot always holds a file made for it.
  lemma RunSafe(trace: seq<State>, n: nat)
    requires Run(trace) && n < |trace|
    ensures var s := trace[n];
      && !s.faulted
      && (forall f | f in s.files :: s.files[f].count == SlotRef(s, f) + Total(s.threads, f))
      && (forall sl | sl in s.slots ::
            s.slots[sl] in s.files && s.slots[sl] !in s.freed && s.files[s.slots[sl]].home == sl)
      && (forall t: nat, f: File | t < |s.threads| && Refs(s.threads[t], f) > 0 :: f in s.files && f !in s.freed)
      && (forall i, j | 0 <= i < j < |s.freed| :: s.freed[i] != s.freed[j])
  {
    hide Inv;
    RunInv(trace, n);
    InvSafe(trace[n]);
    InvHeld(trace[n]);
  }

  lemma InvSafe(s: State)
    requires Inv(s)
    ensures !s.faulted
    ensures forall f | f in s.files :: s.files[f].count == SlotRef(s, f) + Total(s.threads, f)
    ensures forall sl | sl in s.slots ::
              s.slots[sl] in s.files && s.slots[sl] !in s.freed && s.files[s.slots[sl]].home == sl
    ensures forall i, j | 0 <= i < j < |s.freed| :: s.freed[i] != s.freed[j]
  {
    hide LockOk1, OwnersOk, DyingOk, PrivateOk, ThreadsOk, SlotRef, Total;
  }

  // What a thread refers to is allocated.
  lemma InvHeld(s: State)
    requires Inv(s)
    ensures forall t: nat, f: File | t < |s.threads| && Refs(s.threads[t], f) > 0 :: f in s.files && f !in s.freed
  {
    hide LockOk1, OwnersOk, DyingOk, PrivateOk, ThreadsOk, SlotsOk, SlotRef, Refs;
    forall t: nat, f: File | t < |s.threads| && Refs(s.threads[t], f) > 0 ensures f in s.files && f !in s.freed {
      TotalCovers(s.threads, t, f);
    }
  }

  // The cache lock excludes: two threads are never both between lock and unlock.
  lemma RunExcludes(trace: seq<State>, n: nat, t: nat, u: nat)
    requires Run(trace) && n < |trace|
    requires t < |trace[n].threads| && u < |trace[n].threads|
    requires Critical(trace[n].threads[t].pc) && Critical(trace[n].threads[u].pc)
    ensures t == u
  {
    RunInv(trace, n);
  }

  // Once every caller has returned and released what it was given, exactly
  // the slotted files remain allocated, each with the slot's one reference.
  lemma RunQuiescent(trace: seq<State>, n: nat)
    requires Run(trace) && n < |trace|
    requires forall t :: 0 <= t < |trace[n].threads| ==> Quiet(trace[n].threads[t])
    ensures var s := trace[n];
      && s.files.Keys == s.slots.Values
      && forall f | f in s.files :: s.files[f].count == 1
  {
    RunInv(trace, n);
    var s := trace[n];
    forall f | f in s.files
      ensures f in s.slots.Values && s.files[f].count == 1
    {
      TotalOfQuiet(s.threads, f);
      forall t: nat | t < |s.threads| ensures s.threads[t].dying != Some(f) { assert Quiet(s.threads[t]); }
      assert s.files[f].count != 0;
      assert InSlot(s, f);
    }
    assert s.files.Keys <= s.slots.Values;
    assert s.slots.Values <= s.files.Keys;
  }

  function NextAction(s: State, t: nat): Action
    requires t < |s.threads|
  {
    var th := s.threads[t];
    if th.dying.Some? then Reap
    else if Locking(th.pc) then LockOk
    else if th.pc.Load? || th.pc.LoadParse? then LoadOk
    else if th.pc.Check? && th.file.Some? then UpToDate
    else Proceed
  }

  // What a thread has in its locals is allocated.
  lemma LocalsLive(s: State, t: nat)
    requires Knows(s, t)
    ensures var th := s.threads[t];
      && (th.file.Some? && !th.pc.LookupInc? ==> th.file.value in s.files)
      && (th.updated.Some? ==> th.updated.value in s.files)
      && (th.taken.Some? ==> th.taken.value in s.files)
  {
    hide SlotsOk, FreedOk, SlotRef;
    var th := s.threads[t];
    if th.file.Some? && !th.pc.LookupInc? { assert Refs(th, th.file.value) > 0; }
    if th.updated.Some? { assert Refs(th, th.updated.value) > 0; }
    if th.taken.Some? { assert Refs(th, th.taken.value) > 0; }
  }

  lemma Moves(s: State, t: nat, a: Action)
    requires Knows(s, t) && a == NextAction(s, t) && Enabled(s, t, a)
    requires !s.threads[t].pc.Idle? || s.threads[t].dying.Some?
    ensures |Do(s, t, a).threads| == |s.threads| && Do(s, t, a).threads[t] != s.threads[t]
  {
    hide SlotsOk, FreedOk, SlotRef, Refs, InSlot;
    LocalsLive(s, t);
  }

  predicate InCall(th: Thread) {
    !th.pc.Idle? || th.dying.Some?
  }

  // Who can move: the holder of the lock if `u` is waiting for it, else `u`.
  function Mover(s: State, u: nat): nat
    requires u < |s.threads|
  {
    if Locking(s.threads[u].pc) && s.threads[u].dying.None? && s.lock.Some? then s.lock.value else u
  }

  lemma MoverMoves(s: State, u: nat)
    requires Inv(s) && u < |s.threads| && InCall(s.threads[u])
    ensures var t := Mover(s, u);
      t < |s.threads| && InCall(s.threads[t]) && NextAction(s, t) != LockFails && Enabled(s, t, NextAction(s, t))
  {
    var t := Mover(s, u);
    assert ThreadOk(s, s.threads[t]);
  }

  ghost predicate Advances(s: State, t: nat, a: Action) {
    t < |s.threads| && InCall(s.threads[t]) && a != LockFails && Enabled(s, t, a) && Do(s, t, a) != s
  }

  // No deadlock: while some call is in progress, some thread that is in the
  // middle of one can take a step that changes the state, and not only by
  // giving up on the lock.
  lemma RunProgress(trace: seq<State>, n: nat, u: nat)
    requires Run(trace) && n < |trace|
    requires u < |trace[n].threads| && InCall(trace[n].threads[u])
    ensures exists t: nat, a :: Advances(trace[n], t, a)
  {
    RunInv(trace, n);
    MoverMoves(trace[n], u);
    var t := Mover(trace[n], u);
    InvKnows(trace[n], t);
    Moves(trace[n], t, NextAction(trace[n], t));
    assert Advances(trace[n], t, NextAction(trace[n], t));
  }
}
