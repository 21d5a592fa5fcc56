/** Safety of the signer machine over whole runs. */
module MachineSafety {
  import opened Bytes
  import opened TweakHash
  import opened Instances
  import opened Records
  import opened Machine
  import Sampling

  // ----- the initial state and single steps -----

  lemma InitialInv(m: Machine, file: File)
    ensures m.Inv(m.Initial(file))
  {
  }

  /** A live signer between calls stands on the record on file, and can sign its message again. */
  lemma ReadyFacts(m: Machine, s: System, p: nat, r: Record)
    requires m.Lawful() && m.Inv(s) && p in s.processes && s.processes[p] == Live(r, Ready)
    ensures m.consistent(r) && m.RecordOf(s.Current()) == Some(r) && r.nextLeaf <= m.leaves
    ensures r.lastMessage.Some? ==> r.nextLeaf > 0 && m.Signature(r).Some?
  {
    assert m.ProcessInv(s, s.processes[p]);
  }

  /** Leaving changes neither the files nor what was released. */
  lemma ExitInv(m: Machine, s: System, p: nat)
    requires m.Lawful() && m.Inv(s)
    ensures m.Inv(s.Without(p))
  {
  }

  lemma PowerLossInv(m: Machine, s: System, main: File, tmp: File)
    requires m.Lawful() && m.Inv(s) && m.KeepsOpened(s, PowerLoss(main, tmp))
    ensures m.Inv(m.Step(s, PowerLoss(main, tmp)))
  {
  }

  lemma LockInv(m: Machine, s: System, p: nat)
    requires m.Lawful() && m.Inv(s)
    ensures m.Inv(m.Step(s, Lock(p)))
  {
    if s.lock.None? && p !in s.processes {
      assert s.processes == map[];
    }
  }

  /** Syncing takes nothing from what anybody knows. */
  lemma SyncInv(m: Machine, s: System, p: nat)
    requires m.Lawful() && m.Inv(s)
    ensures m.Inv(m.Step(s, Sync(p)))
  {
    assert s.anchored ==> m.OnFile(s, s.Current());
  }

  lemma CreateInv(m: Machine, s: System, e: Event)
    requires m.Lawful() && m.Inv(s) && !e.PowerLoss? && !e.Lock? && e.p in s.processes
    requires e.CreateFile? || e.CreateSample? || e.CreateWrite? || e.CreateSync?
    ensures m.Inv(m.Step(s, e))
  {
  }

  lemma CreateSyncDirInv(m: Machine, s: System, p: nat)
    requires m.Lawful() && m.Inv(s) && p in s.processes
    ensures m.Inv(m.Step(s, CreateSyncDir(p)))
  {
    if s.processes[p].RecordSynced? {
      assert m.restore(m.write(s.processes[p].state)).Some?;
    }
  }

  lemma OpenedInv(m: Machine, s: System, p: nat, r: Record)
    requires m.Inv(s) && p in s.processes && m.consistent(r) && m.RecordOf(s.Current()) == Some(r)
    ensures m.Inv(s.Opened(p, r))
  {
    assert m.ProcessInv(s.Opened(p, r), Live(r, Ready));
  }

  lemma OpenInv(m: Machine, s: System, p: nat)
    requires m.Lawful() && m.Inv(s) && p in s.processes
    ensures m.Inv(m.Step(s, Open(p)))
  {
    if s.processes[p].Starting? {
      var r := m.RecordOf(s.Current());
      if r.Some? {
        OpenedInv(m, s, p, r.value);
      } else {
        ExitInv(m, s, p);
      }
    }
  }

  lemma RequireInv(m: Machine, s: System, p: nat, minimum: u32)
    requires m.Lawful() && m.Inv(s) && p in s.processes
    ensures m.Inv(m.Step(s, Require(p, minimum)))
  {
    ExitInv(m, s, p);
  }

  /** The record on file accounts for its own recorded signature, and for no other at that leaf. */
  lemma ReleaseAccounted(m: Machine, s: System, r: Record, x: Release)
    requires |s.log| > 0 && m.OnFile(s, s.Current()) && m.consistent(r) && m.RecordOf(s.Current()) == Some(r)
    requires x in s.released + m.ReleaseOf(r)
    ensures m.Accounts(r, x)
  {
  }

  /** Two signatures at one leaf that a record accounts for, one of them the record's own, are one. */
  lemma ReleaseUnique(m: Machine, r: Record, x: Release, y: Release)
    requires m.consistent(r) && x in m.ReleaseOf(r) && m.Accounts(r, y) && x.leaf == y.leaf
    ensures x == y
  {
  }

  /** Handing out the recorded signature of the record on file keeps the invariant. */
  lemma ReleaseInv(m: Machine, s: System, r: Record)
    requires m.Lawful() && m.Inv(s) && s.anchored && s.floor == |s.log| - 1
    requires m.consistent(r) && m.RecordOf(s.Current()) == Some(r)
    ensures m.Inv(s.(released := s.released + m.ReleaseOf(r)))
  {
    assert m.OnFile(s, s.Current());
    var new' := m.ReleaseOf(r);
    var s' := s.(released := s.released + new');
    forall x | x in s'.released
      ensures m.Accounts(r, x)
    {
      ReleaseAccounted(m, s, r, x);
    }
    assert m.OnFile(s', s'.Current());
    forall x, y | x in s'.released && y in s'.released && x.leaf == y.leaf
      ensures x == y
    {
      if x in new' {
        ReleaseUnique(m, r, x, y);
      } else if y in new' {
        ReleaseUnique(m, r, y, x);
      }
    }
    ProcessesKept(m, s, s');
  }

  /** What processes know does not depend on what was released. */
  lemma ProcessesKept(m: Machine, s: System, s': System)
    requires |s.log| > 0 && s' == s.(released := s'.released)
    requires forall p :: p in s.processes ==> m.ProcessInv(s, s.processes[p])
    ensures forall p :: p in s'.processes ==> m.ProcessInv(s', s'.processes[p])
  {
    forall p | p in s'.processes
      ensures m.ProcessInv(s', s'.processes[p])
    {
      assert m.ProcessInv(s, s.processes[p]);
    }
  }

  /** The one process there is may move on as far as its own part of the invariant lets it. */
  lemma ProcessMoves(m: Machine, s: System, p: nat, process: Process, tmp: File)
    requires m.Inv(s) && p in s.processes && m.ProcessInv(s.(tmp := tmp), process)
    ensures m.Inv(s.With(p, process).(tmp := tmp))
  {
  }

  lemma SignInv(m: Machine, s: System, p: nat, message: Message, source: Sampling.Source)
    requires m.Lawful() && m.Inv(s) && p in s.processes
    ensures m.Inv(m.Step(s, Sign(p, message, source)))
  {
    var process := s.processes[p];
    if process.Live? && process.phase.Ready? {
      var r := process.state;
      if r.lastMessage == Some(message) {
        ReleaseInv(m, s, r);
      } else if r.nextLeaf < m.leaves {
        var next := m.Attempt(r, message, source);
        assert m.consistent(next);
        ProcessMoves(m, s, p, Live(next, Attempted), s.tmp);
      }
    }
  }

  /** The events between an attempt and the rename touch only the temporary file. */
  lemma WriteTmpInv(m: Machine, s: System, p: nat, n: nat)
    requires m.Lawful() && m.Inv(s) && p in s.processes
    ensures m.Inv(m.Step(s, WriteTmp(p, n)))
  {
    var process := s.processes[p];
    if process.Live? && process.phase.Attempted? {
      var r := process.state;
      var record := m.write(r);
      ProcessMoves(m, s, p, Live(r, if n < |record| then Attempted else TmpWritten),
                   Present(if n < |record| then record[..n] else record));
      assert s.processes[p := process] == s.processes;
    }
  }

  lemma SyncTmpInv(m: Machine, s: System, p: nat)
    requires m.Lawful() && m.Inv(s) && p in s.processes
    ensures m.Inv(m.Step(s, SyncTmp(p)))
  {
    var process := s.processes[p];
    if process.Live? && process.phase.TmpWritten? {
      ProcessMoves(m, s, p, Live(process.state, TmpSynced), s.tmp);
    }
  }

  lemma FailInv(m: Machine, s: System, p: nat)
    requires m.Lawful() && m.Inv(s) && p in s.processes
    ensures m.Inv(m.Step(s, Fail(p)))
  {
    var process := s.processes[p];
    if process.Live? {
      ProcessMoves(m, s, p, Live(process.state, Unusable), s.tmp);
    }
  }

  /** A renamed record accounts for every release: its leaf is new, and the key is the same. */
  lemma RenamedOnFile(m: Machine, s: System, r: Record, current: Record)
    requires |s.log| > 0 && m.OnFile(s, s.Current()) && m.RecordOf(s.Current()) == Some(current)
    requires m.consistent(r) && m.restore(m.write(r)) == Some(r) && m.Follows(current, r)
    ensures m.OnFile(s, Present(m.write(r))) && m.Further(s.Current(), Present(m.write(r)), 1)
  {
    forall x | x in s.released
      ensures m.Accounts(r, x)
    {
      assert m.Accounts(current, x);
    }
  }

  /** One more record after the ones on file. */
  lemma LogGrows(m: Machine, s: System, file: File, s': System)
    requires s.floor < |s.log| && s'.log == s.log + [file] && s'.floor == s.floor && s'.released == s.released
    requires forall k :: s.floor <= k < |s.log| ==> m.OnFile(s, s.log[k])
    requires forall j, k :: s.floor <= j <= k < |s.log| ==> m.Further(s.log[j], s.log[k], k - j)
    requires m.OnFile(s, file) && m.Further(s.Current(), file, 1)
    ensures forall k :: s'.floor <= k < |s'.log| ==> m.OnFile(s', s'.log[k])
    ensures forall j, k :: s'.floor <= j <= k < |s'.log| ==> m.Further(s'.log[j], s'.log[k], k - j)
  {
    forall k | s'.floor <= k < |s'.log|
      ensures m.OnFile(s', s'.log[k])
    {
      assert k < |s.log| ==> m.OnFile(s, s.log[k]);
    }
    forall j, k | s'.floor <= j <= k < |s'.log|
      ensures m.Further(s'.log[j], s'.log[k], k - j)
    {
      if j < |s.log| {
        assert m.Further(s.log[j], s.log[if k < |s.log| then k else k - 1], if k < |s.log| then k - j else k - 1 - j);
      }
    }
  }

  lemma RenameInv(m: Machine, s: System, p: nat)
    requires m.Lawful() && m.Inv(s) && p in s.processes
    ensures m.Inv(m.Step(s, Rename(p)))
  {
    var process := s.processes[p];
    if process.Live? && process.phase.TmpSynced? && s.anchored {
      assert m.OnFile(s, s.Current());
      RenamedOnFile(m, s, process.state, m.RecordOf(s.Current()).value);
      LogGrows(m, s, s.tmp, m.Step(s, Rename(p)));
    }
  }

  lemma SyncDirInv(m: Machine, s: System, p: nat)
    requires m.Lawful() && m.Inv(s) && p in s.processes
    ensures m.Inv(m.Step(s, SyncDir(p)))
  {
    assert s.anchored ==> m.OnFile(s, s.Current());
  }

  lemma ReleaseStepInv(m: Machine, s: System, p: nat)
    requires m.Lawful() && m.Inv(s) && p in s.processes
    ensures m.Inv(m.Step(s, Return(p)))
  {
    var process := s.processes[p];
    if process.Live? && process.phase.Persisted? {
      var r := process.state;
      var ready := s.With(p, Live(r, Ready));
      assert m.OnFile(s, s.Current());
      assert m.Inv(ready);
      ReleaseInv(m, ready, r);
    }
  }

  lemma OwnStepInv(m: Machine, s: System, e: Event)
    requires m.Lawful() && m.Inv(s) && !e.PowerLoss? && !e.Lock? && !e.Sync? && e.p in s.processes
    ensures m.Inv(m.Step(s, e))
  {
    match e
    case CreateFile(_) => CreateInv(m, s, e);
    case CreateSample(_, _, _) => CreateInv(m, s, e);
    case CreateWrite(_, _) => CreateInv(m, s, e);
    case CreateSync(_) => CreateInv(m, s, e);
    case CreateSyncDir(p) => CreateSyncDirInv(m, s, p);
    case Open(p) => OpenInv(m, s, p);
    case Sign(p, message, source) => SignInv(m, s, p, message, source);
    case WriteTmp(p, n) => WriteTmpInv(m, s, p, n);
    case SyncTmp(p) => SyncTmpInv(m, s, p);
    case Fail(p) => FailInv(m, s, p);
    case Rename(p) => RenameInv(m, s, p);
    case SyncDir(p) => SyncDirInv(m, s, p);
    case Return(p) => ReleaseStepInv(m, s, p);
    case Require(p, minimum) => RequireInv(m, s, p, minimum);
    case Exit(p) => ExitInv(m, s, p);
  }

  lemma StepInv(m: Machine, s: System, e: Event)
    requires m.Lawful() && m.Inv(s) && m.KeepsOpened(s, e)
    ensures m.Inv(m.Step(s, e))
  {
    if e.PowerLoss? {
      PowerLossInv(m, s, e.main, e.tmp);
    } else if e.Lock? {
      LockInv(m, s, e.p);
    } else if e.Sync? {
      SyncInv(m, s, e.p);
    } else if e.p in s.processes {
      OwnStepInv(m, s, e);
    }
  }

  lemma {:induction false} RunInv(m: Machine, s: System, events: seq<Event>)
    requires m.Lawful() && m.Inv(s) && m.RunKeepsOpened(s, events)
    ensures m.Inv(m.Run(s, events))
    decreases |events|
  {
    if |events| > 0 {
      StepInv(m, s, events[0]);
      RunInv(m, m.Step(s, events[0]), events[1..]);
    }
  }
}
