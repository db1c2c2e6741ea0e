// What git_attr_cache__get returns: over any run, from the step at which a
// thread asks for a slot to the one at which its call is over.

module AttrCalls {
  import opened Wrappers
  import opened AttrCache

  // Which thread took a step, and what the environment decided.
  datatype Move = Move(thread: nat, action: Action)

  ghost predicate Stepped(s: State, m: Move, s': State) {
    m.thread < |s.threads| && Enabled(s, m.thread, m.action) && s' == Do(s, m.thread, m.action)
  }

  // A run with its moves.
  ghost predicate Played(trace: seq<State>, moves: seq<Move>) {
    && |trace| == |moves| + 1 && Init(trace[0])
    && forall k :: 0 <= k < |moves| ==> Stepped(trace[k], moves[k], trace[k + 1])
  }

  lemma PlayedRun(trace: seq<State>, moves: seq<Move>)
    requires Played(trace, moves)
    ensures Run(trace)
  {
    hide Init, Enabled, Do;
    forall k | 0 <= k < |trace| - 1 ensures Step(trace[k], trace[k + 1]) {
      assert Stepped(trace[k], moves[k], trace[k + 1]);
    }
  }

  // Every run has moves.
  lemma {:induction false} RunPlayed(trace: seq<State>, n: nat) returns (moves: seq<Move>)
    requires Run(trace) && n < |trace|
    ensures Played(trace[..n + 1], moves)
  {
    hide Init, Enabled, Do;
    moves := [];
    if n > 0 {
      var front := RunPlayed(trace, n - 1);
      assert Step(trace[n - 1], trace[n - 1 + 1]);
      var t: nat, a :| t < |trace[n - 1].threads| && Enabled(trace[n - 1], t, a) && trace[n] == Do(trace[n - 1], t, a);
      moves := front + [Move(t, a)];
      assert trace[..n + 1][..n] == trace[..n];
      forall k | 0 <= k < n ensures Stepped(trace[..n + 1][k], moves[k], trace[..n + 1][k + 1]) {
        if k < n - 1 { assert Stepped(trace[..n][k], front[k], trace[..n][k + 1]); }
      }
    }
  }

  // At step k the thread, standing at `pc`, did what its line says.
  ghost predicate Did(trace: seq<State>, moves: seq<Move>, t: nat, k: nat, pc: Pc, a: Action) {
    && k < |moves| < |trace| && moves[k] == Move(t, a) && t < |trace[k].threads|
    && trace[k].threads[t].pc == pc && trace[k].threads[t].dying.None?
  }

  // From the request for the slot at step i until the call is over before
  // state j.
  ghost predicate Call(trace: seq<State>, moves: seq<Move>, t: nat, i: nat, j: nat, slot: Slot) {
    && i < j < |trace| && Did(trace, moves, t, i, Idle, Get(slot))
    && (forall k :: i <= k <= j ==> t < |trace[k].threads|)
    && (forall k :: i < k < j ==> trace[k].threads[t].pc != Idle)
    && trace[j].threads[t].pc == Idle
  }

  // -------------------------------------------------- what a call has seen so far

  // The file found in the slot, the one made, whether the lock for putting it
  // there was taken, the one put there, and whether the one found is up to date.
  datatype Seen = Seen(found: Option<File>, made: Option<File>, locked: bool, put: Option<File>, current: bool)

  function Learn(s: State, t: nat, a: Action, h: Seen): Seen
    requires t < |s.threads|
  {
    var th := s.threads[t];
    if th.dying.Some? then h
    else if th.pc.LookupRead? && th.slot.path in s.entries && th.slot in s.slots then
      h.(found := Some(s.slots[th.slot]))
    else if th.pc.Load? && a == LoadOk then h.(made := Some(s.nextId))
    else if th.pc.UpsertLock? && a == LockOk then h.(locked := true)
    else if th.pc.UpsertSwap? then h.(put := th.updated)
    else if th.pc.Check? && a == UpToDate then h.(current := true)
    else h
  }

  predicate Opening(pc: Pc) {
    pc.LookupLock? || pc.LookupRead?
  }

  predicate Making(pc: Pc) {
    pc.LoadParse? || pc.UpsertLock? || pc.UpsertAbort?
  }

  predicate Putting(pc: Pc) {
    pc.UpsertOwn? || pc.UpsertInc? || pc.UpsertSwap?
  }

  predicate Closing(pc: Pc) {
    pc.UpsertDisown? || pc.UpsertDrop? || pc.UpsertUnlock? || pc.DropLookup?
  }

  function Given(h: Seen): multiset<File> {
    if h.locked then Opt(h.put) else if h.current then Opt(h.found) else multiset{}
  }

  // Where a call stands with what it has seen.
  predicate Phase(th: Thread, slot: Slot, before: multiset<File>, h: Seen) {
    && th.slot == slot
    && (th.file.Some? ==> h.found == th.file)
    && (h.locked <==> Putting(th.pc) || Closing(th.pc) || (th.pc.Idle? && h.put.Some?))
    && (Making(th.pc) || Putting(th.pc) ==> th.updated.Some? && h.made == th.updated)
    && (Closing(th.pc) ==> th.updated.Some? && h.made == th.updated && h.put == th.updated)
    && (!Closing(th.pc) && !th.pc.Idle? ==> h.put.None?)
    && (h.put.Some? ==> h.made == h.put)
    && (Opening(th.pc) ==> th.file.None?)
    && (h.current ==> th.pc.Idle? && h.found.Some? && !h.locked)
    && th.held == before + if th.pc.Idle? then Given(h) else multiset{}
  }

  lemma PhaseStarts(s: State, t: nat, slot: Slot)
    requires t < |s.threads| && Enabled(s, t, Get(slot)) && s.threads[t].pc.Idle? && s.threads[t].dying.None?
    ensures Phase(Do(s, t, Get(slot)).threads[t], slot, s.threads[t].held, Seen(None, None, false, None, false))
  {
  }

  lemma PhaseStep(s: State, t: nat, a: Action, slot: Slot, before: multiset<File>, h: Seen)
    requires t < |s.threads| && Enabled(s, t, a) && !s.threads[t].pc.Idle?
    requires Phase(s.threads[t], slot, before, h)
    ensures t < |Do(s, t, a).threads| && Phase(Do(s, t, a).threads[t], slot, before, Learn(s, t, a, h))
  {
    hide IdleStep, LookupStep, CheckStep, UpsertStep, RemoveStep, ReapStep;
    var pc := s.threads[t].pc;
    if s.threads[t].dying.Some? {
      PhaseReaps(s, t, a, slot, before, h);
    } else if pc.DropLookup? {
      PhaseReturns(s, t, a, slot, before, h);
    } else if pc.LookupLock? || pc.LookupRead? {
      PhaseLooks(s, t, a, slot, before, h);
    } else if pc.LookupInc? || pc.LookupUnlock? {
      PhaseFinds(s, t, a, slot, before, h);
    } else if pc.Check? || pc.Load? || pc.LoadParse? {
      PhaseLoads(s, t, a, slot, before, h);
    } else if pc.UpsertLock? || pc.UpsertAbort? || pc.UpsertOwn? || pc.UpsertInc? {
      PhaseOpens(s, t, a, slot, before, h);
    } else if pc.UpsertSwap? || pc.UpsertDisown? || pc.UpsertDrop? || pc.UpsertUnlock? {
      PhaseCloses(s, t, a, slot, before, h);
    } else if pc.Failed? || pc.RemoveLock? || pc.RemoveCas? || pc.RemoveUnlock? {
      PhaseRemoves(s, t, a, slot, before, h);
    } else {
      PhaseFails(s, t, a, slot, before, h);
    }
  }

  lemma PhaseReaps(s: State, t: nat, a: Action, slot: Slot, before: multiset<File>, h: Seen)
    requires t < |s.threads| && s.threads[t].dying.Some? && Phase(s.threads[t], slot, before, h)
    ensures var s' := ReapStep(s, t);
      t < |s'.threads| && Phase(s'.threads[t], slot, before, Learn(s, t, a, h))
  {
    hide Given;
  }

  lemma PhaseReturns(s: State, t: nat, a: Action, slot: Slot, before: multiset<File>, h: Seen)
    requires t < |s.threads| && s.threads[t].dying.None? && s.threads[t].pc.DropLookup?
    requires Phase(s.threads[t], slot, before, h)
    ensures var s' := IdleStep(s, t, a);
      t < |s'.threads| && Phase(s'.threads[t], slot, before, Learn(s, t, a, h))
  {
    hide Opt;
  }

  lemma PhaseLooks(s: State, t: nat, a: Action, slot: Slot, before: multiset<File>, h: Seen)
    requires t < |s.threads| && s.threads[t].dying.None? && Enabled(s, t, a)
    requires var pc := s.threads[t].pc; pc.LookupLock? || pc.LookupRead?
    requires Phase(s.threads[t], slot, before, h)
    ensures var s' := LookupStep(s, t, a);
      t < |s'.threads| && Phase(s'.threads[t], slot, before, Learn(s, t, a, h))
  {
    hide Opt;
  }

  lemma PhaseFinds(s: State, t: nat, a: Action, slot: Slot, before: multiset<File>, h: Seen)
    requires t < |s.threads| && s.threads[t].dying.None? && Enabled(s, t, a)
    requires var pc := s.threads[t].pc; pc.LookupInc? || pc.LookupUnlock?
    requires Phase(s.threads[t], slot, before, h)
    ensures var s' := LookupStep(s, t, a);
      t < |s'.threads| && Phase(s'.threads[t], slot, before, Learn(s, t, a, h))
  {
    hide Opt;
  }

  lemma PhaseLoads(s: State, t: nat, a: Action, slot: Slot, before: multiset<File>, h: Seen)
    requires t < |s.threads| && s.threads[t].dying.None? && Enabled(s, t, a)
    requires var pc := s.threads[t].pc; pc.Check? || pc.Load? || pc.LoadParse?
    requires Phase(s.threads[t], slot, before, h)
    ensures var s' := CheckStep(s, t, a);
      t < |s'.threads| && Phase(s'.threads[t], slot, before, Learn(s, t, a, h))
  {
    hide Opt;
  }

  lemma PhaseOpens(s: State, t: nat, a: Action, slot: Slot, before: multiset<File>, h: Seen)
    requires t < |s.threads| && s.threads[t].dying.None? && Enabled(s, t, a)
    requires var pc := s.threads[t].pc; pc.UpsertLock? || pc.UpsertAbort? || pc.UpsertOwn? || pc.UpsertInc?
    requires Phase(s.threads[t], slot, before, h)
    ensures var s' := UpsertStep(s, t, a);
      t < |s'.threads| && Phase(s'.threads[t], slot, before, Learn(s, t, a, h))
  {
    hide Opt;
  }

  lemma PhaseCloses(s: State, t: nat, a: Action, slot: Slot, before: multiset<File>, h: Seen)
    requires t < |s.threads| && s.threads[t].dying.None? && Enabled(s, t, a)
    requires var pc := s.threads[t].pc; pc.UpsertSwap? || pc.UpsertDisown? || pc.UpsertDrop? || pc.UpsertUnlock?
    requires Phase(s.threads[t], slot, before, h)
    ensures var s' := UpsertStep(s, t, a);
      t < |s'.threads| && Phase(s'.threads[t], slot, before, Learn(s, t, a, h))
  {
    hide Opt;
  }

  lemma PhaseRemoves(s: State, t: nat, a: Action, slot: Slot, before: multiset<File>, h: Seen)
    requires t < |s.threads| && s.threads[t].dying.None? && Enabled(s, t, a)
    requires var pc := s.threads[t].pc; pc.Failed? || pc.RemoveLock? || pc.RemoveCas? || pc.RemoveUnlock?
    requires Phase(s.threads[t], slot, before, h)
    ensures var s' := RemoveStep(s, t, a);
      t < |s'.threads| && Phase(s'.threads[t], slot, before, Learn(s, t, a, h))
  {
    hide Opt;
  }

  lemma PhaseFails(s: State, t: nat, a: Action, slot: Slot, before: multiset<File>, h: Seen)
    requires t < |s.threads| && s.threads[t].dying.None? && Enabled(s, t, a)
    requires var pc := s.threads[t].pc; pc.RemoveDisown? || pc.RemoveDrop? || pc.DropFile?
    requires Phase(s.threads[t], slot, before, h)
    ensures var s' := RemoveStep(s, t, a);
      t < |s'.threads| && Phase(s'.threads[t], slot, before, Learn(s, t, a, h))
  {
    hide Opt;
  }

  // A step of one thread leaves another's part alone, keeps the home of every
  // file that stays, and uses no number again.
  predicate OwnStep(s: State, s': State, t: nat, u: nat, f: File) {
    && |s'.threads| == |s.threads| && (u < |s.threads| && u != t ==> s'.threads[u] == s.threads[u])
    && s.nextId <= s'.nextId
    && (f < s.nextId && f in s'.files ==> f in s.files && s'.files[f].home == s.files[f].home)
  }

  lemma StepOwn(s: State, t: nat, a: Action, u: nat, f: File)
    requires t < |s.threads| && Enabled(s, t, a)
    ensures OwnStep(s, Do(s, t, a), t, u, f)
  {
    hide IdleStep, LookupStep, CheckStep, UpsertStep, RemoveStep, ReapStep, OwnStep;
    if s.threads[t].dying.Some? { ReapOwn(s, t, u, f); }
    IdleOwn(s, t, a, u, f);
    LookupOwn(s, t, a, u, f);
    CheckOwn(s, t, a, u, f);
    UpsertOwn(s, t, a, u, f);
    RemoveOwn(s, t, a, u, f);
  }

  lemma ReapOwn(s: State, t: nat, u: nat, f: File)
    requires t < |s.threads| && s.threads[t].dying.Some?
    ensures OwnStep(s, ReapStep(s, t), t, u, f)
  {
  }

  lemma IdleOwn(s: State, t: nat, a: Action, u: nat, f: File)
    requires t < |s.threads|
    ensures OwnStep(s, IdleStep(s, t, a), t, u, f)
  {
  }

  lemma LookupOwn(s: State, t: nat, a: Action, u: nat, f: File)
    requires t < |s.threads|
    ensures OwnStep(s, LookupStep(s, t, a), t, u, f)
  {
  }

  lemma CheckOwn(s: State, t: nat, a: Action, u: nat, f: File)
    requires t < |s.threads|
    ensures OwnStep(s, CheckStep(s, t, a), t, u, f)
  {
  }

  lemma UpsertOwn(s: State, t: nat, a: Action, u: nat, f: File)
    requires t < |s.threads|
    ensures OwnStep(s, UpsertStep(s, t, a), t, u, f)
  {
    hide UpsertStep, OwnStep;
    var pc := s.threads[t].pc;
    if pc.UpsertLock? || pc.UpsertAbort? || pc.UpsertOwn? || pc.UpsertInc? {
      UpsertOpensOwn(s, t, a, u, f);
    } else {
      UpsertClosesOwn(s, t, a, u, f);
    }
  }

  lemma UpsertOpensOwn(s: State, t: nat, a: Action, u: nat, f: File)
    requires t < |s.threads|
    requires var pc := s.threads[t].pc; pc.UpsertLock? || pc.UpsertAbort? || pc.UpsertOwn? || pc.UpsertInc?
    ensures OwnStep(s, UpsertStep(s, t, a), t, u, f)
  {
  }

  lemma UpsertClosesOwn(s: State, t: nat, a: Action, u: nat, f: File)
    requires t < |s.threads|
    requires var pc := s.threads[t].pc; !(pc.UpsertLock? || pc.UpsertAbort? || pc.UpsertOwn? || pc.UpsertInc?)
    ensures OwnStep(s, UpsertStep(s, t, a), t, u, f)
  {
  }

  lemma RemoveOwn(s: State, t: nat, a: Action, u: nat, f: File)
    requires t < |s.threads|
    ensures OwnStep(s, RemoveStep(s, t, a), t, u, f)
  {
    hide RemoveStep, OwnStep;
    var pc := s.threads[t].pc;
    if pc.Failed? || pc.RemoveLock? || pc.RemoveCas? || pc.RemoveUnlock? {
      RemoveOpensOwn(s, t, a, u, f);
    } else {
      RemoveClosesOwn(s, t, a, u, f);
    }
  }

  lemma RemoveOpensOwn(s: State, t: nat, a: Action, u: nat, f: File)
    requires t < |s.threads|
    requires var pc := s.threads[t].pc; pc.Failed? || pc.RemoveLock? || pc.RemoveCas? || pc.RemoveUnlock?
    ensures OwnStep(s, RemoveStep(s, t, a), t, u, f)
  {
  }

  lemma RemoveClosesOwn(s: State, t: nat, a: Action, u: nat, f: File)
    requires t < |s.threads|
    requires var pc := s.threads[t].pc; !(pc.Failed? || pc.RemoveLock? || pc.RemoveCas? || pc.RemoveUnlock?)
    ensures OwnStep(s, RemoveStep(s, t, a), t, u, f)
  {
  }

  // ------------------------------------------------------------ along the run

  // What was seen did happen in the run, between the request and state k.
  ghost predicate Happened(trace: seq<State>, moves: seq<Move>, t: nat, i: nat, k: nat, slot: Slot, h: Seen) {
    && (h.found.Some? ==> exists r: nat :: i < r < k && FoundAt(trace, moves, t, r, slot, h.found.value))
    && (h.made.Some? ==> exists l: nat :: i < l < k && MadeAt(trace, moves, t, l, slot, h.made.value))
    && (h.put.Some? ==> exists p: nat :: i < p < k && PutAt(trace, moves, t, p, slot, h.put.value))
    && (h.locked <==> exists m: nat :: i < m < k && Did(trace, moves, t, m, UpsertLock, LockOk))
    && (h.current <==> exists m: nat :: i < m < k && Did(trace, moves, t, m, Check, UpToDate))
  }

  // The thread read the slot under the lock and this file was in it.
  ghost predicate FoundAt(trace: seq<State>, moves: seq<Move>, t: nat, r: nat, slot: Slot, f: File) {
    Did(trace, moves, t, r, LookupRead, Proceed) && slot in trace[r].slots && trace[r].slots[slot] == f
  }

  // The thread loaded the file, which was not there before.
  ghost predicate MadeAt(trace: seq<State>, moves: seq<Move>, t: nat, l: nat, slot: Slot, f: File) {
    && Did(trace, moves, t, l, Load, LoadOk) && f == trace[l].nextId && l + 1 < |trace|
    && f in trace[l + 1].files && trace[l + 1].files[f].home == slot && f < trace[l + 1].nextId
  }

  // The thread put the file in the slot.
  ghost predicate PutAt(trace: seq<State>, moves: seq<Move>, t: nat, p: nat, slot: Slot, f: File) {
    && Did(trace, moves, t, p, UpsertSwap, Proceed) && p + 1 < |trace|
    && slot in trace[p + 1].slots && trace[p + 1].slots[slot] == f
  }

  lemma StepHappens(trace: seq<State>, moves: seq<Move>, t: nat, i: nat, k: nat, slot: Slot, before: multiset<File>,
                    h: Seen)
    requires i < k < |moves| < |trace| && Stepped(trace[k], moves[k], trace[k + 1]) && moves[k].thread == t
    requires Phase(trace[k].threads[t], slot, before, h) && Happened(trace, moves, t, i, k, slot, h)
    ensures Happened(trace, moves, t, i, k + 1, slot, Learn(trace[k], t, moves[k].action, h))
  {
    hide Did, Phase, Do, Enabled, FoundAt, MadeAt, PutAt;
    var s, a := trace[k], moves[k].action;
    var th, h' := s.threads[t], Learn(s, t, a, h);
    PhaseNow(th, slot, before, h);
    Later(trace, moves, t, i, k, slot, h);
    if th.dying.None? {
      DidNow(trace, moves, t, k);
      if th.pc.LookupRead? && slot in s.slots { FindHappens(trace, moves, t, k, slot); }
      if th.pc.Load? && a == LoadOk { LoadHappens(trace, moves, t, k, slot); }
      if th.pc.UpsertSwap? { SwapHappens(trace, moves, t, k, slot); }
    }
    OnlyNow(trace, moves, t, k);
  }

  lemma FindHappens(trace: seq<State>, moves: seq<Move>, t: nat, k: nat, slot: Slot)
    requires k < |moves| < |trace| && Stepped(trace[k], moves[k], trace[k + 1]) && moves[k].thread == t
    requires var th := trace[k].threads[t]; th.dying.None? && th.pc.LookupRead? && slot in trace[k].slots
    ensures FoundAt(trace, moves, t, k, slot, trace[k].slots[slot])
  {
    hide Do;
  }

  lemma LoadHappens(trace: seq<State>, moves: seq<Move>, t: nat, k: nat, slot: Slot)
    requires k < |moves| < |trace| && Stepped(trace[k], moves[k], trace[k + 1]) && moves[k] == Move(t, LoadOk)
    requires var th := trace[k].threads[t]; th.dying.None? && th.pc.Load? && th.slot == slot
    ensures MadeAt(trace, moves, t, k, slot, trace[k].nextId)
  {
    hide Enabled, IdleStep, LookupStep, UpsertStep, RemoveStep;
  }

  lemma SwapHappens(trace: seq<State>, moves: seq<Move>, t: nat, k: nat, slot: Slot)
    requires k < |moves| < |trace| && Stepped(trace[k], moves[k], trace[k + 1]) && moves[k].thread == t
    requires var th := trace[k].threads[t]; th.dying.None? && th.pc.UpsertSwap? && th.slot == slot && th.updated.Some?
    ensures PutAt(trace, moves, t, k, slot, trace[k].threads[t].updated.value)
  {
    hide IdleStep, LookupStep, CheckStep, RemoveStep;
  }

  lemma PhaseNow(th: Thread, slot: Slot, before: multiset<File>, h: Seen)
    requires Phase(th, slot, before, h)
    ensures th.slot == slot && (th.pc.UpsertSwap? ==> th.updated.Some?)
  {
  }

  lemma Later(trace: seq<State>, moves: seq<Move>, t: nat, i: nat, k: nat, slot: Slot, h: Seen)
    requires Happened(trace, moves, t, i, k, slot, h)
    ensures h.found.Some? ==> exists r: nat :: i < r < k + 1 && FoundAt(trace, moves, t, r, slot, h.found.value)
    ensures h.made.Some? ==> exists l: nat :: i < l < k + 1 && MadeAt(trace, moves, t, l, slot, h.made.value)
    ensures h.put.Some? ==> exists p: nat :: i < p < k + 1 && PutAt(trace, moves, t, p, slot, h.put.value)
    ensures h.locked ==> exists m: nat :: i < m < k + 1 && Did(trace, moves, t, m, UpsertLock, LockOk)
    ensures h.current ==> exists m: nat :: i < m < k + 1 && Did(trace, moves, t, m, Check, UpToDate)
  {
    hide Did, FoundAt, MadeAt, PutAt;
  }

  lemma DidNow(trace: seq<State>, moves: seq<Move>, t: nat, k: nat)
    requires k < |moves| < |trace| && Stepped(trace[k], moves[k], trace[k + 1]) && moves[k].thread == t
    requires trace[k].threads[t].dying.None?
    ensures Did(trace, moves, t, k, trace[k].threads[t].pc, moves[k].action)
  {
    hide Do;
  }

  lemma OnlyNow(trace: seq<State>, moves: seq<Move>, t: nat, k: nat)
    requires k < |moves| < |trace|
    ensures forall pc, a :: Did(trace, moves, t, k, pc, a) ==>
              moves[k] == Move(t, a) && trace[k].threads[t].pc == pc && trace[k].threads[t].dying.None?
  {
  }

  // A call up to any of its states.
  lemma {:induction false} CallSoFar(trace: seq<State>, moves: seq<Move>, t: nat, i: nat, j: nat, slot: Slot, k: nat)
    returns (h: Seen)
    requires Played(trace, moves) && Call(trace, moves, t, i, j, slot) && i < k <= j
    ensures Phase(trace[k].threads[t], slot, trace[i].threads[t].held, h)
    ensures Happened(trace, moves, t, i, k, slot, h)
    decreases k
  {
    hide Do, Enabled, Phase, Learn, Happened, Init;
    if k == i + 1 {
      assert Stepped(trace[i], moves[i], trace[i + 1]);
      PhaseStarts(trace[i], t, slot);
      h := Seen(None, None, false, None, false);
      NothingYet(trace, moves, t, i, slot);
    } else {
      var before := trace[i].threads[t].held;
      h := CallSoFar(trace, moves, t, i, j, slot, k - 1);
      var s, m := trace[k - 1], moves[k - 1];
      assert Stepped(s, m, trace[k - 1 + 1]);
      if m.thread == t {
        StepHappens(trace, moves, t, i, k - 1, slot, before, h);
        PhaseStep(s, t, m.action, slot, before, h);
        h := Learn(s, t, m.action, h);
      } else {
        StepOwn(s, m.thread, m.action, t, 0);
        OtherHappens(trace, moves, t, i, k - 1, slot, h);
      }
    }
  }

  lemma NothingYet(trace: seq<State>, moves: seq<Move>, t: nat, i: nat, slot: Slot)
    ensures Happened(trace, moves, t, i, i + 1, slot, Seen(None, None, false, None, false))
  {
    hide Did;
  }

  lemma OtherHappens(trace: seq<State>, moves: seq<Move>, t: nat, i: nat, k: nat, slot: Slot, h: Seen)
    requires k < |moves| && moves[k].thread != t && Happened(trace, moves, t, i, k, slot, h)
    ensures Happened(trace, moves, t, i, k + 1, slot, h)
  {
    hide FoundAt, MadeAt, PutAt;
    Later(trace, moves, t, i, k, slot, h);
    forall pc, a ensures !Did(trace, moves, t, k, pc, a) { }
    hide Did;
  }

  // ---------------------------------------------------------------- the homes

  lemma {:induction false} HomeKept(trace: seq<State>, moves: seq<Move>, m: nat, n: nat, f: File)
    requires Played(trace, moves) && m <= n < |trace| && f < trace[m].nextId
    ensures f < trace[n].nextId
    ensures f in trace[n].files ==> f in trace[m].files && trace[n].files[f].home == trace[m].files[f].home
    decreases n - m
  {
    hide Do, Enabled, Init;
    if m < n {
      HomeKept(trace, moves, m, n - 1, f);
      assert Stepped(trace[n - 1], moves[n - 1], trace[n - 1 + 1]);
      StepOwn(trace[n - 1], moves[n - 1].thread, moves[n - 1].action, 0, f);
    }
  }

  // What a call was given was made for the slot it asked for.
  lemma GivenHome(trace: seq<State>, moves: seq<Move>, t: nat, i: nat, j: nat, slot: Slot, h: Seen, f: File)
    requires Played(trace, moves) && i < j < |trace| && Happened(trace, moves, t, i, j, slot, h)
    requires h.found == Some(f) || h.made == Some(f)
    ensures f in trace[j].files ==> trace[j].files[f].home == slot
  {
    hide Did, FoundAt, MadeAt, Played;
    if h.made == Some(f) {
      var l: nat :| i < l < j && MadeAt(trace, moves, t, l, slot, f);
      MadeHome(trace, moves, t, l, j, slot, f);
    } else {
      var r: nat :| i < r < j && FoundAt(trace, moves, t, r, slot, f);
      FoundHome(trace, moves, t, r, j, slot, f);
    }
  }

  lemma MadeHome(trace: seq<State>, moves: seq<Move>, t: nat, l: nat, j: nat, slot: Slot, f: File)
    requires Played(trace, moves) && l < j < |trace| && MadeAt(trace, moves, t, l, slot, f)
    ensures f in trace[j].files ==> trace[j].files[f].home == slot
  {
    hide Did, Played;
    HomeKept(trace, moves, l + 1, j, f);
  }

  lemma FoundHome(trace: seq<State>, moves: seq<Move>, t: nat, r: nat, j: nat, slot: Slot, f: File)
    requires Played(trace, moves) && r < j < |trace| && FoundAt(trace, moves, t, r, slot, f)
    ensures f in trace[j].files ==> trace[j].files[f].home == slot
  {
    hide Did, Played, Inv, Run;
    PlayedRun(trace, moves);
    RunInv(trace, r);
    SlotHome(trace[r], slot);
    HomeKept(trace, moves, r, j, f);
  }

  lemma SlotHome(s: State, slot: Slot)
    requires Inv(s) && slot in s.slots
    ensures var f := s.slots[slot]; f in s.files && s.files[f].home == slot && f < s.nextId
  {
    hide CountsOk, OwnersOk, DyingOk, PrivateOk, ThreadsOk, LockOk1;
  }

  // -------------------------------------------------------------- what it returns

  // What the caller holds once the call is over: besides what it held before,
  // the file this call loaded and put in the slot, if it got as far as taking
  // the lock for that; else the file it found in the slot, if that is up to
  // date; else nothing.  Whatever it is was made for the slot asked for.
  lemma CallReturns(trace: seq<State>, moves: seq<Move>, t: nat, i: nat, j: nat, slot: Slot)
    requires Played(trace, moves) && Call(trace, moves, t, i, j, slot)
    ensures var before, after := trace[i].threads[t].held, trace[j].threads[t].held;
      if exists m: nat :: i < m < j && Did(trace, moves, t, m, UpsertLock, LockOk) then
        exists l: nat, p: nat :: i < l < j && i < p < j && LoadedAndPut(trace, moves, t, l, p, slot)
          && after == before + multiset{trace[l].nextId}
      else if exists m: nat :: i < m < j && Did(trace, moves, t, m, Check, UpToDate) then
        exists r: nat :: i < r < j && Found(trace, moves, t, r, slot)
          && after == before + multiset{trace[r].slots[slot]}
      else after == before
    ensures var before, after := trace[i].threads[t].held, trace[j].threads[t].held;
      forall f: File :: after[f] > before[f] ==> f in trace[j].files && trace[j].files[f].home == slot
  {
    hide Did, Happened, Phase, Played;
    var h := CallSoFar(trace, moves, t, i, j, slot, j);
    var before, after := trace[i].threads[t].held, trace[j].threads[t].held;
    EndOf(trace[j].threads[t], slot, before, h);
    Outcome(trace, moves, t, i, j, slot, h, before, after);
    forall f: File | after[f] > before[f] ensures f in trace[j].files && trace[j].files[f].home == slot {
      HeldLives(trace, moves, j, t, f);
      GivenHome(trace, moves, t, i, j, slot, h, f);
    }
  }

  ghost predicate LoadedAndPut(trace: seq<State>, moves: seq<Move>, t: nat, l: nat, p: nat, slot: Slot) {
    && Did(trace, moves, t, l, Load, LoadOk) && Did(trace, moves, t, p, UpsertSwap, Proceed)
    && p + 1 < |trace| && slot in trace[p + 1].slots && trace[p + 1].slots[slot] == trace[l].nextId
  }

  ghost predicate Found(trace: seq<State>, moves: seq<Move>, t: nat, r: nat, slot: Slot) {
    Did(trace, moves, t, r, LookupRead, Proceed) && slot in trace[r].slots
  }

  lemma EndOf(th: Thread, slot: Slot, before: multiset<File>, h: Seen)
    requires Phase(th, slot, before, h) && th.pc.Idle?
    ensures h.locked ==> h.put.Some? && h.made == h.put && th.held == before + multiset{h.put.value}
    ensures !h.locked && h.current ==> h.found.Some? && th.held == before + multiset{h.found.value}
    ensures !h.locked && !h.current ==> th.held == before
    ensures forall f: File :: th.held[f] > before[f] ==> h.made == Some(f) || h.found == Some(f)
  {
  }

  lemma Outcome(trace: seq<State>, moves: seq<Move>, t: nat, i: nat, j: nat, slot: Slot, h: Seen,
                before: multiset<File>, after: multiset<File>)
    requires Happened(trace, moves, t, i, j, slot, h)
    requires h.locked ==> h.put.Some? && h.made == h.put && after == before + multiset{h.put.value}
    requires !h.locked && h.current ==> h.found.Some? && after == before + multiset{h.found.value}
    requires !h.locked && !h.current ==> after == before
    ensures
      if exists m: nat :: i < m < j && Did(trace, moves, t, m, UpsertLock, LockOk) then
        exists l: nat, p: nat :: i < l < j && i < p < j && LoadedAndPut(trace, moves, t, l, p, slot)
          && after == before + multiset{trace[l].nextId}
      else if exists m: nat :: i < m < j && Did(trace, moves, t, m, Check, UpToDate) then
        exists r: nat :: i < r < j && Found(trace, moves, t, r, slot)
          && after == before + multiset{trace[r].slots[slot]}
      else after == before
  {
    hide Did;
    if h.locked {
      var l: nat :| i < l < j && MadeAt(trace, moves, t, l, slot, h.made.value);
      var p: nat :| i < p < j && PutAt(trace, moves, t, p, slot, h.put.value);
      assert LoadedAndPut(trace, moves, t, l, p, slot);
    } else if h.current {
      var r: nat :| i < r < j && FoundAt(trace, moves, t, r, slot, h.found.value);
      assert Found(trace, moves, t, r, slot);
    }
  }

  lemma HeldLives(trace: seq<State>, moves: seq<Move>, j: nat, t: nat, f: File)
    requires Played(trace, moves) && j < |trace| && t < |trace[j].threads| && trace[j].threads[t].held[f] > 0
    ensures f in trace[j].files
  {
    hide Inv;
    PlayedRun(trace, moves);
    RunInv(trace, j);
    InvHeld(trace[j]);
    assert Refs(trace[j].threads[t], f) > 0;
  }

  // ---------------------------------------------------------- what the cache holds

  // Two steps change what is in the slots: putting a file in its slot, and
  // taking it out wherever it still is.
  lemma SlotsChange(s: State, t: nat, a: Action)
    requires Inv(s) && t < |s.threads| && Enabled(s, t, a)
    ensures var s', th := Do(s, t, a), s.threads[t];
      if th.dying.None? && th.pc.UpsertSwap? then
        th.updated.Some? && s'.slots == s.slots[th.slot := th.updated.value]
      else if th.dying.None? && th.pc.RemoveCas? then
        && th.file.Some?
        && (forall sl :: sl in s'.slots <==> sl in s.slots && s.slots[sl] != th.file.value)
        && forall sl :: sl in s'.slots ==> s'.slots[sl] == s.slots[sl]
      else s'.slots == s.slots
  {
    hide IdleStep, LookupStep, CheckStep, UpsertStep, RemoveStep, ReapStep, Inv, Knows;
    InvKnows(s, t);
    if s.threads[t].dying.Some? { ReapSlots(s, t); }
    OtherSlots(s, t, a);
    UpsertSlots(s, t, a);
    RemoveSlots(s, t, a);
  }

  lemma ReapSlots(s: State, t: nat)
    requires t < |s.threads| && s.threads[t].dying.Some?
    ensures ReapStep(s, t).slots == s.slots
  {
  }

  lemma OtherSlots(s: State, t: nat, a: Action)
    requires t < |s.threads|
    ensures IdleStep(s, t, a).slots == LookupStep(s, t, a).slots == CheckStep(s, t, a).slots == s.slots
  {
    hide IdleStep, LookupStep, CheckStep;
    IdleSlots(s, t, a);
    LookupSlots(s, t, a);
    CheckSlots(s, t, a);
  }

  lemma IdleSlots(s: State, t: nat, a: Action)
    requires t < |s.threads|
    ensures IdleStep(s, t, a).slots == s.slots
  {
  }

  lemma LookupSlots(s: State, t: nat, a: Action)
    requires t < |s.threads|
    ensures LookupStep(s, t, a).slots == s.slots
  {
  }

  lemma CheckSlots(s: State, t: nat, a: Action)
    requires t < |s.threads|
    ensures CheckStep(s, t, a).slots == s.slots
  {
  }

  lemma UpsertSlots(s: State, t: nat, a: Action)
    requires Knows(s, t)
    ensures var s', th := UpsertStep(s, t, a), s.threads[t];
      if th.pc.UpsertSwap? then th.updated.Some? && s'.slots == s.slots[th.slot := th.updated.value]
      else s'.slots == s.slots
  {
    hide SlotsOk, FreedOk, Refs, SlotRef;
  }

  lemma RemoveSlots(s: State, t: nat, a: Action)
    requires Knows(s, t)
    ensures var s', th := RemoveStep(s, t, a), s.threads[t];
      if th.pc.RemoveCas? then
        && th.file.Some?
        && (forall sl :: sl in s'.slots <==> sl in s.slots && s.slots[sl] != th.file.value)
        && forall sl :: sl in s'.slots ==> s'.slots[sl] == s.slots[sl]
      else s'.slots == s.slots
  {
    hide FreedOk, SlotRef;
    var th := s.threads[t];
    if th.pc.RemoveCas? { assert Refs(th, th.file.value) > 0; }
  }
}
