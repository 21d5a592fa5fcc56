/** What every run of the signer machine guarantees, and where the storage assumption is needed. */
module MachineTheorems {
  import opened Bytes
  import opened TweakHash
  import opened Instances
  import opened Records
  import opened Machine
  import opened MachineSafety

  // ----- one message per leaf -----

  /** Over every run from any key file, with any number of signers, failures, crashes and reopenings:
      two released signatures at one leaf are for the same message, with the same salt and bytes. */
  lemma OneMessagePerLeaf(m: Machine, file: File, events: seq<Event>, x: Release, y: Release)
    requires m.Lawful() && m.RunKeepsOpened(m.Initial(file), events)
    requires x in m.Run(m.Initial(file), events).released && y in m.Run(m.Initial(file), events).released
    requires x.leaf == y.leaf
    ensures x == y
  {
    InitialInv(m, file);
    RunInv(m, m.Initial(file), events);
  }

  /** The states of all runs, from any key file. */
  ghost predicate Reachable(m: Machine, s: System) {
    exists file, events :: m.RunKeepsOpened(m.Initial(file), events) && s == m.Run(m.Initial(file), events)
  }

  lemma ReachableInv(m: Machine, s: System)
    requires m.Lawful() && Reachable(m, s)
    ensures m.Inv(s)
  {
    var file, events :| m.RunKeepsOpened(m.Initial(file), events) && s == m.Run(m.Initial(file), events);
    InitialInv(m, file);
    RunInv(m, m.Initial(file), events);
  }

  /** Mutual exclusion: in every run at most one process stands behind the sidecar lock, and holds it. */
  lemma OneProcess(m: Machine, s: System, p: nat, q: nat)
    requires m.Lawful() && Reachable(m, s) && p in s.processes && q in s.processes
    ensures p == q && s.lock == Some(p)
  {
    ReachableInv(m, s);
  }

  /** The lock is free exactly when no process is there. */
  lemma FreeLock(m: Machine, s: System)
    requires m.Lawful() && Reachable(m, s)
    ensures s.lock.None? <==> s.processes == map[]
  {
    ReachableInv(m, s);
    if s.processes != map[] {
      var p :| p in s.processes;
    }
  }

  lemma ReleasedAccounted(m: Machine, s: System, x: Release)
    requires m.Lawful() && Reachable(m, s) && x in s.released
    ensures |s.log| > 0 && m.RecordOf(s.Current()).Some? && m.Accounts(m.RecordOf(s.Current()).value, x)
  {
    ReachableInv(m, s);
    assert m.OnFile(s, s.Current());
  }

  lemma AccountedVerifies(i: Instance, hash: Hash, r: Record, x: Release)
    requires For(i, hash).Accounts(r, x)
    ensures |r.secrets| == i.SecretsLength() && x.leaf < r.nextLeaf <= i.Leaves() && i.Owns(r.Key(i, hash))
    ensures i.Sign(r.Key(i, hash), x.leaf, x.message, x.salt) == Some(x.signature)
    ensures |x.signature| == i.SignatureLength() && i.LeafOf(x.signature) == x.leaf
    ensures i.Verify(hash, r.Key(i, hash).VerifyingKey(), x.message, x.signature)
  {
    SignsExactly(i, r.Key(i, hash), x.leaf, x.message, x.salt);
    SignedVerifies(i, r.Key(i, hash), x.leaf, x.message, x.salt);
  }

  /** Every released signature is the honest signature of the key on file at its leaf, below the next
      leaf on file, and verifies. */
  lemma ReleasedVerifies(i: Instance, hash: Hash, s: System, x: Release)
    requires Reachable(For(i, hash), s) && x in s.released
    ensures |s.log| > 0 && s.Current().Present? && Parse(i, hash, s.Current().bytes).Some?
    ensures var r := Parse(i, hash, s.Current().bytes).value;
            && |r.secrets| == i.SecretsLength()
            && x.leaf < r.nextLeaf <= i.Leaves()
            && i.Owns(r.Key(i, hash))
            && i.Sign(r.Key(i, hash), x.leaf, x.message, x.salt) == Some(x.signature)
            && |x.signature| == i.SignatureLength() && i.LeafOf(x.signature) == x.leaf
            && i.Verify(hash, r.Key(i, hash).VerifyingKey(), x.message, x.signature)
  {
    ForLawful(i, hash);
    ReleasedAccounted(For(i, hash), s, x);
    AccountedVerifies(i, hash, Parse(i, hash, s.Current().bytes).value, x);
  }

  /** Once a record is durable or was read with a message in it, no crash or failure leaves a key file
      that `open` refuses. */
  lemma KeyFileAlwaysOpens(i: Instance, hash: Hash, s: System)
    requires Reachable(For(i, hash), s) && s.anchored
    ensures |s.log| > 0 && s.Current().Present? && Parse(i, hash, s.Current().bytes).Some?
  {
    ForLawful(i, hash);
    ReachableInv(For(i, hash), s);
    assert For(i, hash).OnFile(s, s.Current());
  }

  // ----- runs in parts -----

  lemma {:induction false} RunInParts(m: Machine, s: System, first: seq<Event>, second: seq<Event>)
    requires |s.log| > 0
    ensures m.Run(s, first + second) == m.Run(m.Run(s, first), second)
    ensures m.RunKeepsOpened(s, first + second) <==> m.RunKeepsOpened(s, first) && m.RunKeepsOpened(m.Run(s, first), second)
    decreases |first|
  {
    if |first| == 0 {
      assert first + second == second;
    } else {
      assert (first + second)[1..] == first[1..] + second;
      RunInParts(m, m.Step(s, first[0]), first[1..], second);
    }
  }

  lemma RunOne(m: Machine, s: System, e: Event)
    requires |s.log| > 0
    ensures m.Run(s, [e]) == m.Step(s, e)
  {
    assert [e][1..] == [];
  }

  /** A step of the only process. */
  lemma RunOnly(m: Machine, s: System, e: Event, process: Process)
    requires |s.log| > 0 && !e.PowerLoss? && !e.Lock? && !e.Sync? && s.processes == map[e.p := process]
    ensures m.Run(s, [e]) == m.ProcessStep(s, e, process)
  {
    RunOne(m, s, e);
  }

  /** Where the only process has moved on. */
  lemma OnlyMoves(s: System, p: nat, a: Process, b: Process)
    requires s.processes == map[p := a]
    ensures s.With(p, b) == s.(processes := map[p := b])
  {
  }

  /** A fresh start on the current key file. */
  function Start(p: nat): seq<Event> {
    [Lock(p)] + [Open(p)]
  }

  lemma LockRuns(m: Machine, s: System, p: nat)
    requires |s.log| > 0 && s.processes == map[] && s.lock.None?
    ensures m.Run(s, [Lock(p)]) == s.(lock := Some(p), processes := map[p := Starting])
  {
    RunOne(m, s, Lock(p));
  }

  lemma OpenSteps(m: Machine, s: System, p: nat, q: Record)
    requires |s.log| > 0 && m.RecordOf(s.Current()) == Some(q)
    ensures m.ProcessStep(s, Open(p), Starting) == s.Opened(p, q)
  {
  }

  lemma OpenRuns(m: Machine, s: System, p: nat, q: Record)
    requires |s.log| > 0 && s.processes == map[p := Starting] && m.RecordOf(s.Current()) == Some(q)
    ensures m.Run(s, [Open(p)]) == s.Opened(p, q)
  {
    RunOnly(m, s, Open(p), Starting);
    OpenSteps(m, s, p, q);
  }

  lemma StartRuns(m: Machine, s: System, p: nat, q: Record)
    requires |s.log| > 0 && s.processes == map[] && s.lock.None? && m.RecordOf(s.Current()) == Some(q)
    ensures m.Run(s, Start(p))
            == s.(lock := Some(p), processes := map[p := Starting]).Opened(p, q)
  {
    LockRuns(m, s, p);
    OpenRuns(m, s.(lock := Some(p), processes := map[p := Starting]), p, q);
    RunInParts(m, s, [Lock(p)], [Open(p)]);
  }

  // ----- the leaf budget -----

  /** The last record that was durable or was read with a message in it. */
  ghost function Floor(m: Machine, s: System): Record
    requires m.Inv(s) && s.anchored
  {
    assert m.OnFile(s, s.log[s.floor]);
    m.RecordOf(s.log[s.floor]).value
  }

  /** The record on file. */
  ghost function OnDisk(m: Machine, s: System): Record
    requires Grown(m, s)
  {
    m.RecordOf(s.Current()).value
  }

  /** The event puts an attempt's record in place. */
  ghost predicate Persists(s: System, e: Event) {
    && e.Rename? && e.p in s.processes
    && s.processes[e.p].Live? && s.processes[e.p].phase.TmpSynced?
  }

  /** There is a record on file, and nobody is creating one. */
  ghost predicate Grown(m: Machine, s: System) {
    && |s.log| > 0 && m.RecordOf(s.Current()).Some?
    && forall p :: p in s.processes ==> s.processes[p].Starting? || s.processes[p].Live?
  }

  lemma InvGrown(m: Machine, s: System)
    requires m.Inv(s) && s.anchored
    ensures Grown(m, s)
  {
    assert m.OnFile(s, s.Current());
  }

  /** Once there is a record on file, nothing but a power failure or a persisted attempt changes it. */
  lemma StepCurrent(m: Machine, s: System, e: Event)
    requires Grown(m, s) && !e.PowerLoss? && !Persists(s, e)
    ensures m.Step(s, e).Current() == s.Current()
  {
  }

  /** The floor stays, or moves up to the record on file. */
  ghost predicate FloorRises(s: System, s': System)
    requires s.floor < |s.log|
  {
    && s'.anchored && s'.floor < |s'.log|
    && (s'.log[s'.floor] == s.log[s.floor] || s'.log[s'.floor] == s.Current())
  }

  lemma StepFloor(m: Machine, s: System, e: Event)
    requires Grown(m, s) && s.floor < |s.log| && s.anchored && !e.PowerLoss?
    ensures FloorRises(s, m.Step(s, e))
  {
    if !e.Lock? && !e.Sync? && e.p in s.processes {
      ProcessFloor(m, s, e, s.processes[e.p]);
    }
  }

  lemma ProcessFloor(m: Machine, s: System, e: Event, process: Process)
    requires |s.log| > 0 && s.Current().Present? && s.floor < |s.log| && s.anchored && !e.PowerLoss?
    requires process.Starting? || process.Live?
    ensures FloorRises(s, m.ProcessStep(s, e, process))
  {
  }

  /** Nobody creates a record over one. */
  lemma StepProcesses(m: Machine, s: System, e: Event)
    requires Grown(m, s) && !e.PowerLoss?
    ensures forall p :: p in m.Step(s, e).processes ==>
              m.Step(s, e).processes[p].Starting? || m.Step(s, e).processes[p].Live?
  {
  }

  lemma PowerLossNeverRewinds(m: Machine, s: System, e: Event)
    requires m.Inv(s) && s.anchored && m.KeepsOpened(s, e) && e.PowerLoss?
    ensures var s' := m.Step(s, e);
            s'.anchored && s'.floor < |s'.log| && exists n :: m.Further(s.log[s.floor], s'.log[s'.floor], n)
  {
    assert m.Further(s.log[s.floor], s.log[s.floor], 0);
    var s' := m.Step(s, e);
    if s' != s {
      var k :| s.floor <= k < |s.log| && s.log[k] == e.main;
      assert m.Further(s.log[s.floor], s'.log[s'.floor], k - s.floor);
    }
  }

  lemma StepNeverRewinds(m: Machine, s: System, e: Event)
    requires m.Lawful() && m.Inv(s) && s.anchored && m.KeepsOpened(s, e)
    ensures m.Inv(m.Step(s, e)) && m.Step(s, e).anchored
    ensures m.SameKey(Floor(m, s), Floor(m, m.Step(s, e)))
    ensures Floor(m, s).nextLeaf <= Floor(m, m.Step(s, e)).nextLeaf
  {
    StepInv(m, s, e);
    if e.PowerLoss? {
      PowerLossNeverRewinds(m, s, e);
    } else {
      InvGrown(m, s);
      StepFloor(m, s, e);
      assert m.Further(s.log[s.floor], s.Current(), |s.log| - 1 - s.floor);
    }
  }

  /** Across all reopenings, crashes and power failures that keep opened records, the spent leaves of
      the key only grow, and never exceed the key's leaves. */
  lemma {:induction false} NeverRewinds(m: Machine, s: System, events: seq<Event>)
    requires m.Lawful() && m.Inv(s) && s.anchored && m.RunKeepsOpened(s, events)
    ensures m.Inv(m.Run(s, events)) && m.Run(s, events).anchored
    ensures m.SameKey(Floor(m, s), Floor(m, m.Run(s, events)))
    ensures Floor(m, s).nextLeaf <= Floor(m, m.Run(s, events)).nextLeaf <= m.leaves
    decreases |events|
  {
    assert m.OnFile(s, s.log[s.floor]);
    if |events| > 0 {
      StepNeverRewinds(m, s, events[0]);
      NeverRewinds(m, m.Step(s, events[0]), events[1..]);
    }
  }

  ghost function Attempts(m: Machine, s: System, events: seq<Event>): nat
    requires |s.log| > 0
    decreases |events|
  {
    if |events| == 0 then 0
    else (if Persists(s, events[0]) then 1 else 0) + Attempts(m, m.Step(s, events[0]), events[1..])
  }

  lemma StepSpends(m: Machine, s: System, e: Event)
    requires m.Lawful() && m.Inv(s) && Grown(m, s) && !e.PowerLoss?
    ensures m.Inv(m.Step(s, e)) && Grown(m, m.Step(s, e))
    ensures OnDisk(m, m.Step(s, e)).nextLeaf == OnDisk(m, s).nextLeaf + if Persists(s, e) then 1 else 0
  {
    StepInv(m, s, e);
    StepProcesses(m, s, e);
    if Persists(s, e) {
      PersistSpends(m, s, e);
    } else {
      StepCurrent(m, s, e);
    }
  }

  lemma PersistSpends(m: Machine, s: System, e: Event)
    requires m.Lawful() && m.Inv(s) && Persists(s, e)
    ensures m.Follows(m.RecordOf(s.Current()).value, s.processes[e.p].state)
    ensures m.RecordOf(m.Step(s, e).Current()) == Some(s.processes[e.p].state)
  {
    assert m.ProcessInv(s, s.processes[e.p]);
  }

  /** Between power failures the leaf on file rises by exactly one per persisted attempt, failed
      sampling included, and by nothing else; so at most LEAVES attempts are ever persisted. */
  lemma {:induction false} BudgetConserved(m: Machine, s: System, events: seq<Event>)
    requires m.Lawful() && m.Inv(s) && Grown(m, s) && forall e :: e in events ==> !e.PowerLoss?
    ensures m.Inv(m.Run(s, events)) && Grown(m, m.Run(s, events))
    ensures OnDisk(m, m.Run(s, events)).nextLeaf == OnDisk(m, s).nextLeaf + Attempts(m, s, events) <= m.leaves
    decreases |events|
  {
    if |events| > 0 {
      assert events[0] in events;
      StepSpends(m, s, events[0]);
      BudgetConserved(m, m.Step(s, events[0]), events[1..]);
    }
  }

  // ----- exact retries -----

  /** The record on file is `r`, for a signed message, and no process is about to replace it. */
  ghost predicate Settled(m: Machine, s: System, r: Record) {
    && m.Inv(s) && s.anchored && s.floor == |s.log| - 1 && m.RecordOf(s.Current()) == Some(r)
    && r.lastMessage.Some?
    && forall p :: p in s.processes ==>
         var process := s.processes[p];
         process.Starting? || (process.Live? && process.phase.Unusable?) || process == Live(r, Ready)
  }

  /** Any events at all, except requests to sign another message. */
  ghost predicate OnlyRetries(events: seq<Event>, message: Message) {
    forall e :: e in events && e.Sign? ==> e.message == message
  }

  /** What one event of a settled process can do: nothing, leave, come back to life on the record, or
      hand out the recorded signature. */
  ghost predicate OnlyRetried(m: Machine, s: System, r: Record, p: nat, s': System)
    requires |s.log| > 0
  {
    || s' == s
    || s' == s.Without(p)
    || s' == s.With(p, Live(r, Ready)).(anchored := true, floor := |s.log| - 1)
    || s' == s.(released := s.released + m.ReleaseOf(r))
  }

  lemma SettledStep(m: Machine, s: System, r: Record, e: Event)
    requires Grown(m, s) && Settled(m, s, r) && !e.PowerLoss? && !e.Lock? && !e.Sync? && e.p in s.processes
    requires e.Sign? ==> r.lastMessage == Some(e.message)
    ensures OnlyRetried(m, s, r, e.p, m.Step(s, e))
  {
    var process := s.processes[e.p];
    if process.Starting? {
      SettledStarts(m, s, r, e);
    } else {
      assert e.Open? || e.CreateFile? ==> m.ProcessStep(s, e, process) == s;
    }
  }

  lemma SettledStarts(m: Machine, s: System, r: Record, e: Event)
    requires |s.log| > 0 && m.RecordOf(s.Current()) == Some(r) && r.lastMessage.Some?
    requires !e.PowerLoss? && !e.Lock? && !e.Sync? && e.p in s.processes
    ensures OnlyRetried(m, s, r, e.p, m.ProcessStep(s, e, Starting))
  {
  }

  lemma SettledStays(m: Machine, s: System, r: Record, p: nat, s': System)
    requires Settled(m, s, r) && OnlyRetried(m, s, r, p, s') && m.Inv(s')
    ensures Settled(m, s', r) && s'.released <= s.released + m.ReleaseOf(r) && s'.Current() == s.Current()
  {
  }

  /** Nor does a power failure that keeps opened records unsettle it ... */
  lemma SettledSurvives(m: Machine, s: System, r: Record, main: File, tmp: File)
    requires Settled(m, s, r) && m.KeepsOpened(s, PowerLoss(main, tmp))
    requires m.Inv(m.Step(s, PowerLoss(main, tmp)))
    ensures var s' := m.Step(s, PowerLoss(main, tmp));
            Settled(m, s', r) && s'.released == s.released && s'.Current() == s.Current()
  {
  }

  /** ... or a sync, or another process taking the lock. */
  lemma SettledAmong(m: Machine, s: System, r: Record, e: Event)
    requires Settled(m, s, r) && (e.Lock? || e.Sync?) && m.Inv(m.Step(s, e))
    ensures Settled(m, m.Step(s, e), r)
    ensures m.Step(s, e).released == s.released && m.Step(s, e).Current() == s.Current()
  {
  }

  lemma RetryStep(m: Machine, s: System, r: Record, e: Event)
    requires m.Lawful() && Settled(m, s, r) && m.KeepsOpened(s, e)
    requires e.Sign? ==> r.lastMessage == Some(e.message)
    ensures Settled(m, m.Step(s, e), r)
    ensures m.Step(s, e).released <= s.released + m.ReleaseOf(r)
    ensures m.Step(s, e).Current() == s.Current()
  {
    StepInv(m, s, e);
    InvGrown(m, s);
    if e.PowerLoss? {
      SettledSurvives(m, s, r, e.main, e.tmp);
    } else if e.Lock? || e.Sync? {
      SettledAmong(m, s, r, e);
    } else if e.p in s.processes {
      SettledStep(m, s, r, e);
      SettledStays(m, s, r, e.p, m.Step(s, e));
    }
  }

  /** Retrying the recorded message any number of times, with any sources, crashes, reopenings and
      kept power failures in between, returns the recorded signature and nothing else, and changes
      neither the state nor the file, even when every leaf is spent. */
  lemma {:induction false} RetriesRepeat(m: Machine, s: System, r: Record, events: seq<Event>)
    requires m.Lawful() && Settled(m, s, r) && m.RunKeepsOpened(s, events)
    requires OnlyRetries(events, r.lastMessage.value)
    ensures Settled(m, m.Run(s, events), r)
    ensures m.Run(s, events).released <= s.released + m.ReleaseOf(r)
    ensures m.Run(s, events).Current() == s.Current()
    decreases |events|
  {
    if |events| > 0 {
      assert events[0] in events;
      RetryStep(m, s, r, events[0]);
      RetriesRepeat(m, m.Step(s, events[0]), r, events[1..]);
    }
  }

  /** The state right after a signature of a fresh attempt is handed out is settled on its record. */
  lemma ReleaseSettles(m: Machine, s: System, p: nat)
    requires m.Lawful() && m.Inv(s) && p in s.processes && s.processes[p].Live? && s.processes[p].phase.Persisted?
    requires s.processes[p].state.lastMessage.Some?
    ensures var s', r := m.Step(s, Return(p)), s.processes[p].state;
            Settled(m, s', r) && m.ReleaseOf(r) <= s'.released
  {
    StepInv(m, s, Return(p));
  }

  // ----- retries and the source -----

  /** The same events, but for what the random source of a signing request would do. */
  ghost predicate SameButSources(a: seq<Event>, b: seq<Event>) {
    && |a| == |b|
    && forall k :: 0 <= k < |a| ==> a[k] == b[k] || SameRequest(a[k], b[k])
  }

  ghost predicate SameRequest(a: Event, b: Event) {
    a.Sign? && b.Sign? && a.p == b.p && a.message == b.message
  }

  lemma RetryIgnoresSource(m: Machine, s: System, r: Record, a: Event, b: Event)
    requires m.Inv(s) && Settled(m, s, r) && SameRequest(a, b) && r.lastMessage == Some(a.message)
    ensures m.Step(s, a) == m.Step(s, b)
  {
  }

  /** Retries never call the source: over any run of retries of the recorded message, with crashes and
      reopenings, every source leads to the very same states. */
  lemma {:induction false} RetriesIgnoreSources(m: Machine, s: System, r: Record, a: seq<Event>, b: seq<Event>)
    requires m.Lawful() && Settled(m, s, r) && m.RunKeepsOpened(s, a)
    requires OnlyRetries(a, r.lastMessage.value) && SameButSources(a, b)
    ensures m.Run(s, a) == m.Run(s, b)
    decreases |a|
  {
    if |a| > 0 {
      assert a[0] in a;
      RetryStep(m, s, r, a[0]);
      if a[0] != b[0] {
        RetryIgnoresSource(m, s, r, a[0], b[0]);
      }
      RetriesIgnoreSources(m, m.Step(s, a[0]), r, a[1..], b[1..]);
    }
  }
}
