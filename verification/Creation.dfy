/** Interrupted creations: which key files a signer can still come to life from. */
module Creation {
  import opened Bytes
  import opened TweakHash
  import opened Records
  import opened Machine
  import opened MachineTheorems

  // ----- a file that is no record -----

  /** The key file is no record, and nobody stands on it. */
  ghost predicate Stranded(m: Machine, s: System) {
    && |s.log| > 0 && s.Current().Present? && m.restore(s.Current().bytes).None?
    && forall p :: p in s.processes ==> s.processes[p].Starting?
  }

  ghost predicate PowerStays(events: seq<Event>) {
    forall e :: e in events ==> !e.PowerLoss?
  }

  lemma StepStranded(m: Machine, s: System, e: Event)
    requires Stranded(m, s) && !e.PowerLoss?
    ensures var s' := m.Step(s, e);
            Stranded(m, s') && s'.Current() == s.Current() && s'.released == s.released
  {
  }

  /** Unless power fails, a file that is no record strands its path: nothing ever replaces it, opens it
      or signs from it. */
  lemma {:induction false} StrandedWhilePowered(m: Machine, s: System, events: seq<Event>)
    requires Stranded(m, s) && PowerStays(events)
    ensures var end := m.Run(s, events);
            Stranded(m, end) && end.Current() == s.Current() && end.released == s.released
    decreases |events|
  {
    if |events| > 0 {
      assert events[0] in events;
      StepStranded(m, s, events[0]);
      StrandedWhilePowered(m, m.Step(s, events[0]), events[1..]);
    }
  }

  /** Once it is synced, not even a power failure helps. */
  lemma {:induction false} StrandedForever(m: Machine, s: System, events: seq<Event>)
    requires Stranded(m, s) && s.Durable()
    ensures var end := m.Run(s, events);
            Stranded(m, end) && end.Durable() && end.log == s.log && end.released == s.released
    decreases |events|
  {
    if |events| > 0 {
      StrandedForever(m, m.Step(s, events[0]), events[1..]);
    }
  }

  // ----- creations, interrupted and not -----

  /** `create` up to its new, empty file. */
  function Begin(p: nat): seq<Event> {
    [Lock(p)] + [CreateFile(p)]
  }

  lemma BeginRuns(m: Machine, s: System, p: nat)
    requires |s.log| > 0 && s.processes == map[] && s.lock.None? && s.Current().Absent?
    ensures m.Run(s, Begin(p))
            == s.(lock := Some(p), processes := map[p := CreatedFile], log := s.log + [Present([])], dirty := true)
  {
    var s1 := s.(lock := Some(p), processes := map[p := Starting]);
    LockRuns(m, s, p);
    RunOnly(m, s1, CreateFile(p), Starting);
    OnlyMoves(s1, p, Starting, CreatedFile);
    RunInParts(m, s, [Lock(p)], [CreateFile(p)]);
  }

  /** Sampling, and writing the first `n` bytes of the record. */
  function Write(p: nat, secrets: Bytes, parameter: Parameter, n: nat): seq<Event> {
    [CreateSample(p, secrets, parameter)] + [CreateWrite(p, n)]
  }

  lemma SampleRuns(m: Machine, s: System, p: nat, secrets: Bytes, parameter: Parameter)
    requires |s.log| > 0 && s.processes == map[p := CreatedFile] && m.wellKeyed(secrets)
    ensures m.Run(s, [CreateSample(p, secrets, parameter)])
            == s.(processes := map[p := Sampled(m.Fresh(secrets, parameter))])
  {
    RunOnly(m, s, CreateSample(p, secrets, parameter), CreatedFile);
    OnlyMoves(s, p, CreatedFile, Sampled(m.Fresh(secrets, parameter)));
  }

  lemma WriteRuns(m: Machine, s: System, p: nat, secrets: Bytes, parameter: Parameter, n: nat)
    requires |s.log| > 0 && s.processes == map[p := CreatedFile] && m.wellKeyed(secrets)
    ensures var r, end := m.Fresh(secrets, parameter), m.Run(s, Write(p, secrets, parameter, n));
            && end.lock == s.lock && end.log == s.log + [Present(if n < |m.write(r)| then m.write(r)[..n] else m.write(r))]
            && end.processes == map[p := if n < |m.write(r)| then Sampled(r) else RecordWritten(r)]
  {
    var r := m.Fresh(secrets, parameter);
    var s1 := s.(processes := map[p := Sampled(r)]);
    SampleRuns(m, s, p, secrets, parameter);
    RunOnly(m, s1, CreateWrite(p, n), Sampled(r));
    OnlyMoves(s1, p, Sampled(r), RecordWritten(r));
    RunInParts(m, s, [CreateSample(p, secrets, parameter)], [CreateWrite(p, n)]);
  }

  lemma QuitRuns(m: Machine, s: System, p: nat, process: Process)
    requires |s.log| > 0 && s.processes == map[p := process]
    ensures m.Run(s, [Exit(p)]).processes == map[] && m.Run(s, [Exit(p)]).log == s.log
  {
    RunOnly(m, s, Exit(p), process);
  }

  /** `create`, killed right after it made its file. */
  function CreateKilledEmpty(p: nat): seq<Event> {
    Begin(p) + [Exit(p)]
  }

  /** `create`, killed while it writes the record. */
  function CreateKilledWriting(p: nat, secrets: Bytes, parameter: Parameter, n: nat): seq<Event> {
    Begin(p) + Write(p, secrets, parameter, n) + [Exit(p)]
  }

  /** A `create` that is killed before its record is complete leaves a stranded, unsynced path. */
  lemma KilledCreateStrands(m: Machine, s: System, p: nat, secrets: Bytes, parameter: Parameter, n: nat)
    requires m.Lawful() && |s.log| > 0 && s.processes == map[] && s.lock.None? && s.Current().Absent?
    requires m.wellKeyed(secrets) && n < |m.write(m.Fresh(secrets, parameter))|
    ensures Stranded(m, m.Run(s, CreateKilledEmpty(p))) && m.Run(s, CreateKilledEmpty(p)).Current() == Present([])
    ensures var end := m.Run(s, CreateKilledWriting(p, secrets, parameter, n));
            Stranded(m, end) && end.Current() == Present(m.write(m.Fresh(secrets, parameter))[..n])
  {
    var s1 := m.Run(s, Begin(p));
    BeginRuns(m, s, p);
    QuitRuns(m, s1, p, CreatedFile);
    RunInParts(m, s, Begin(p), [Exit(p)]);
    var write := Write(p, secrets, parameter, n);
    WriteRuns(m, s1, p, secrets, parameter, n);
    QuitRuns(m, m.Run(s1, write), p, Sampled(m.Fresh(secrets, parameter)));
    RunInParts(m, s, Begin(p), write);
    RunInParts(m, s, Begin(p) + write, [Exit(p)]);
    assert m.consistent(m.Fresh(secrets, parameter));
  }

  /** A whole `create`. */
  function Create(p: nat, secrets: Bytes, parameter: Parameter, n: nat): seq<Event> {
    Begin(p) + Write(p, secrets, parameter, n) + ([CreateSync(p)] + [CreateSyncDir(p)])
  }

  lemma SyncRuns(m: Machine, s: System, p: nat, r: Record)
    requires |s.log| > 0 && s.processes == map[p := RecordWritten(r)]
    ensures m.Run(s, [CreateSync(p)] + [CreateSyncDir(p)]).processes == map[p := Live(r, Ready)]
  {
    var s1 := s.(processes := map[p := RecordSynced(r)], dirty := false);
    RunOnly(m, s, CreateSync(p), RecordWritten(r));
    OnlyMoves(s, p, RecordWritten(r), RecordSynced(r));
    RunOnly(m, s1, CreateSyncDir(p), RecordSynced(r));
    OnlyMoves(s1, p, RecordSynced(r), Live(r, Ready));
    RunInParts(m, s, [CreateSync(p)], [CreateSyncDir(p)]);
  }

  lemma CreateRuns(m: Machine, s: System, p: nat, secrets: Bytes, parameter: Parameter)
    requires |s.log| > 0 && s.processes == map[] && s.lock.None? && s.Current().Absent? && m.wellKeyed(secrets)
    ensures var r := m.Fresh(secrets, parameter);
            m.Run(s, Create(p, secrets, parameter, |m.write(r)|)).processes == map[p := Live(r, Ready)]
  {
    var r := m.Fresh(secrets, parameter);
    var write := Write(p, secrets, parameter, |m.write(r)|);
    var s1 := m.Run(s, Begin(p));
    BeginRuns(m, s, p);
    WriteRuns(m, s1, p, secrets, parameter, |m.write(r)|);
    SyncRuns(m, m.Run(s1, write), p, r);
    RunInParts(m, s, Begin(p), write);
    RunInParts(m, s, Begin(p) + write, [CreateSync(p)] + [CreateSyncDir(p)]);
  }

  // ----- exactly: where a signer can come to life -----

  /** Some continuation without power failures brings a signer to life. */
  ghost predicate ComesAlive(m: Machine, s: System)
    requires |s.log| > 0
  {
    exists events, p :: PowerStays(events) && Lives(m.Run(s, events), p)
  }

  ghost predicate Lives(s: System, p: nat) {
    p in s.processes && s.processes[p].Live?
  }

  /** From a path that nobody uses, a signer can come to life if and only if there is no key file or the
      key file is a record; whatever else an interrupted `create` leaves is refused for good by both
      `create` and `open`. */
  lemma ComesAliveIff(m: Machine, s: System, secrets: Bytes, parameter: Parameter)
    requires m.Lawful() && |s.log| > 0 && s.processes == map[] && s.lock.None? && m.wellKeyed(secrets)
    ensures ComesAlive(m, s) <==> s.Current().Absent? || m.restore(s.Current().bytes).Some?
  {
    if s.Current().Absent? {
      var events := Create(0, secrets, parameter, |m.write(m.Fresh(secrets, parameter))|);
      CreateRuns(m, s, 0, secrets, parameter);
      assert PowerStays(events) && Lives(m.Run(s, events), 0);
    } else if m.restore(s.Current().bytes).Some? {
      StartRuns(m, s, 0, m.restore(s.Current().bytes).value);
      assert PowerStays(Start(0)) && Lives(m.Run(s, Start(0)), 0);
    } else {
      forall events, p | PowerStays(events)
        ensures !Lives(m.Run(s, events), p)
      {
        StrandedWhilePowered(m, s, events);
      }
    }
  }
}
