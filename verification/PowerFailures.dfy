/**
 Where durability matters. `open` reads a record without syncing anything, and a retry writes nothing.
 If a record with a message in it is only opened while the directory is synced, power may fail at any
 moment. If not, a record that was read can be lost after its signature was handed out, and its leaf
 signs again.
 */
module PowerFailures {
  import opened Bytes
  import opened TweakHash
  import opened Instances
  import opened Records
  import opened Machine
  import opened MachineSafety
  import opened MachineTheorems
  import Leaves
  import Sampling

  // ----- enough: sync before opening a record with a message -----

  ghost predicate HoldsMessage(m: Machine, file: File) {
    m.RecordOf(file).Some? && m.RecordOf(file).value.lastMessage.Some?
  }

  /** The event makes a process read the record on file. */
  ghost predicate Reads(s: System, e: Event) {
    e.Open? && e.p in s.processes && s.processes[e.p].Starting?
  }

  /** Whoever opens a record with a message finds the directory synced. */
  ghost predicate OpensDurably(m: Machine, s: System, events: seq<Event>)
    requires |s.log| > 0
    decreases |events|
  {
    |events| > 0 ==>
      && (Reads(s, events[0]) && HoldsMessage(m, s.Current()) ==> s.Durable())
      && OpensDurably(m, m.Step(s, events[0]), events[1..])
  }

  /** No file that a power failure may leave is older than the floor. */
  ghost predicate KeepsAll(s: System) {
    s.anchored ==> s.floor == 0 && !s.dirty
  }

  /** Reading a durable record, or one without a message, keeps every file at or after the floor; so
      does everything else. */
  lemma StepKeepsAll(m: Machine, s: System, e: Event)
    requires m.Inv(s) && KeepsAll(s) && (Reads(s, e) && HoldsMessage(m, s.Current()) ==> s.Durable())
    ensures m.KeepsOpened(s, e) && KeepsAll(m.Step(s, e))
  {
    if !e.PowerLoss? && s.anchored {
      InvGrown(m, s);
      GrownKeepsAll(m, s, e);
    }
  }

  lemma GrownKeepsAll(m: Machine, s: System, e: Event)
    requires Grown(m, s) && s.anchored && KeepsAll(s) && !e.PowerLoss?
    requires Reads(s, e) && HoldsMessage(m, s.Current()) ==> s.Durable()
    ensures KeepsAll(m.Step(s, e))
  {
  }

  lemma {:induction false} DurableOpensKeep(m: Machine, s: System, events: seq<Event>)
    requires m.Lawful() && m.Inv(s) && KeepsAll(s) && OpensDurably(m, s, events)
    ensures m.RunKeepsOpened(s, events)
    ensures m.Inv(m.Run(s, events)) && KeepsAll(m.Run(s, events))
    decreases |events|
  {
    if |events| > 0 {
      StepKeepsAll(m, s, events[0]);
      StepInv(m, s, events[0]);
      DurableOpensKeep(m, m.Step(s, events[0]), events[1..]);
    }
  }

  lemma {:induction false} OpensInParts(m: Machine, s: System, first: seq<Event>, second: seq<Event>)
    requires |s.log| > 0 && OpensDurably(m, s, first) && OpensDurably(m, m.Run(s, first), second)
    ensures OpensDurably(m, s, first + second)
    decreases |first|
  {
    if |first| == 0 {
      assert first + second == second;
    } else {
      assert (first + second)[1..] == first[1..] + second;
      OpensInParts(m, m.Step(s, first[0]), first[1..], second);
    }
  }

  lemma {:induction false} NoOpens(m: Machine, s: System, events: seq<Event>)
    requires |s.log| > 0 && forall e :: e in events ==> !e.Open?
    ensures OpensDurably(m, s, events)
    decreases |events|
  {
    if |events| > 0 {
      assert events[0] in events;
      NoOpens(m, m.Step(s, events[0]), events[1..]);
    }
  }

  lemma OneOpen(m: Machine, s: System, p: nat)
    requires |s.log| > 0 && (HoldsMessage(m, s.Current()) ==> s.Durable())
    ensures OpensDurably(m, s, [Open(p)])
  {
    assert [Open(p)][1..] == [];
  }

  /** One message per leaf needs no assumption on power failures when such opens are durable. */
  lemma OneMessagePerLeafDurably(m: Machine, file: File, events: seq<Event>, x: Release, y: Release)
    requires m.Lawful() && OpensDurably(m, m.Initial(file), events)
    requires x in m.Run(m.Initial(file), events).released && y in m.Run(m.Initial(file), events).released
    requires x.leaf == y.leaf
    ensures x == y
  {
    InitialInv(m, file);
    DurableOpensKeep(m, m.Initial(file), events);
  }

  // ----- what a caller does about it -----

  /** Has the key file been synced, and not been written or replaced since? */
  predicate StaysSynced(e: Event, synced: bool) {
    e.Sync? || (synced && !e.CreateFile? && !e.CreateWrite? && !e.Rename?)
  }

  /** Whoever opens a record with a message opens what was synced before. */
  ghost predicate SyncsFirst(m: Machine, s: System, events: seq<Event>, synced: bool)
    requires |s.log| > 0
    decreases |events|
  {
    |events| > 0 ==>
      && (Reads(s, events[0]) && HoldsMessage(m, s.Current()) ==> synced)
      && SyncsFirst(m, m.Step(s, events[0]), events[1..], StaysSynced(events[0], synced))
  }

  lemma SyncedIsDurable(m: Machine, s: System, e: Event, synced: bool)
    requires |s.log| > 0 && (synced ==> s.Durable()) && StaysSynced(e, synced)
    ensures m.Step(s, e).Durable()
  {
  }

  lemma {:induction false} SyncingOpensDurably(m: Machine, s: System, events: seq<Event>, synced: bool)
    requires |s.log| > 0 && (synced ==> s.Durable()) && SyncsFirst(m, s, events, synced)
    ensures OpensDurably(m, s, events)
    decreases |events|
  {
    if |events| > 0 {
      if StaysSynced(events[0], synced) {
        SyncedIsDurable(m, s, events[0], synced);
      }
      SyncingOpensDurably(m, m.Step(s, events[0]), events[1..], StaysSynced(events[0], synced));
    }
  }

  /** Callers that sync before they open a record with a message need no assumption on power failures. */
  lemma OneMessagePerLeafSynced(m: Machine, file: File, events: seq<Event>, x: Release, y: Release)
    requires m.Lawful() && SyncsFirst(m, m.Initial(file), events, false)
    requires x in m.Run(m.Initial(file), events).released && y in m.Run(m.Initial(file), events).released
    requires x.leaf == y.leaf
    ensures x == y
  {
    SyncingOpensDurably(m, m.Initial(file), events, false);
    OneMessagePerLeafDurably(m, file, events, x, y);
  }

  // ----- necessary: otherwise a leaf is reused -----

  /** A power failure that leaves an earlier file, then a fresh start on it. */
  function Reboot(p: nat, earlier: File): seq<Event> {
    [PowerLoss(earlier, Absent)] + Start(p)
  }

  lemma PowerLossRuns(m: Machine, s: System, earlier: File)
    requires |s.log| > 0 && earlier in s.log
    ensures m.Run(s, [PowerLoss(earlier, Absent)])
            == System([earlier], false, Absent, None, map[], s.released, s.anchored, 0)
  {
    RunOne(m, s, PowerLoss(earlier, Absent));
  }

  lemma RebootRuns(m: Machine, s: System, p: nat, earlier: File, q: Record)
    requires |s.log| > 0 && earlier in s.log && m.RecordOf(earlier) == Some(q)
    ensures m.Run(s, Reboot(p, earlier))
            == System([earlier], false, Absent, Some(p), map[p := Live(q, Ready)], s.released, true, 0)
  {
    var s1 := System([earlier], false, Absent, None, map[], s.released, s.anchored, 0);
    PowerLossRuns(m, s, earlier);
    StartRuns(m, s1, p, q);
    RunInParts(m, s, [PowerLoss(earlier, Absent)], Start(p));
  }

  lemma RebootOpensDurably(m: Machine, s: System, p: nat, earlier: File)
    requires |s.log| > 0 && earlier in s.log
    ensures OpensDurably(m, s, Reboot(p, earlier))
  {
    var s1 := System([earlier], false, Absent, None, map[], s.released, s.anchored, 0);
    PowerLossRuns(m, s, earlier);
    LockRuns(m, s1, p);
    NoOpens(m, s, [PowerLoss(earlier, Absent)]);
    NoOpens(m, s1, [Lock(p)]);
    OneOpen(m, m.Run(s1, [Lock(p)]), p);
    OpensInParts(m, s1, [Lock(p)], [Open(p)]);
    OpensInParts(m, s, [PowerLoss(earlier, Absent)], Start(p));
  }

  /** A fresh attempt up to its rename, and from there to its release. */
  function Write(p: nat, message: Message, source: Sampling.Source, n: nat): seq<Event> {
    ([Sign(p, message, source)] + [WriteTmp(p, n)]) + ([SyncTmp(p)] + [Rename(p)])
  }

  function Publish(p: nat): seq<Event> {
    [SyncDir(p)] + [Return(p)]
  }

  lemma SignRuns(m: Machine, s: System, p: nat, q: Record, message: Message, source: Sampling.Source)
    requires |s.log| > 0 && s.processes == map[p := Live(q, Ready)]
    requires q.nextLeaf < m.leaves && q.lastMessage != Some(message)
    ensures m.Run(s, [Sign(p, message, source)]) == s.(processes := map[p := Live(m.Attempt(q, message, source), Attempted)])
  {
    RunOnly(m, s, Sign(p, message, source), Live(q, Ready));
    OnlyMoves(s, p, Live(q, Ready), Live(m.Attempt(q, message, source), Attempted));
  }

  lemma WriteTmpRuns(m: Machine, s: System, p: nat, r: Record)
    requires |s.log| > 0 && s.processes == map[p := Live(r, Attempted)]
    ensures m.Run(s, [WriteTmp(p, |m.write(r)|)])
            == s.(processes := map[p := Live(r, TmpWritten)], tmp := Present(m.write(r)))
  {
    RunOnly(m, s, WriteTmp(p, |m.write(r)|), Live(r, Attempted));
    OnlyMoves(s, p, Live(r, Attempted), Live(r, TmpWritten));
  }

  lemma SyncTmpRuns(m: Machine, s: System, p: nat, r: Record)
    requires |s.log| > 0 && s.processes == map[p := Live(r, TmpWritten)]
    ensures m.Run(s, [SyncTmp(p)]) == s.(processes := map[p := Live(r, TmpSynced)])
  {
    RunOnly(m, s, SyncTmp(p), Live(r, TmpWritten));
    OnlyMoves(s, p, Live(r, TmpWritten), Live(r, TmpSynced));
  }

  lemma RenameRuns(m: Machine, s: System, p: nat, r: Record)
    requires |s.log| > 0 && s.processes == map[p := Live(r, TmpSynced)]
    ensures m.Run(s, [Rename(p)])
            == s.(log := s.log + [s.tmp], tmp := Absent, processes := map[p := Live(r, Renamed)])
  {
    RunOnly(m, s, Rename(p), Live(r, TmpSynced));
    OnlyMoves(s, p, Live(r, TmpSynced), Live(r, Renamed));
  }

  lemma WriteRuns(m: Machine, s: System, p: nat, q: Record, message: Message, source: Sampling.Source)
    requires |s.log| > 0 && s.processes == map[p := Live(q, Ready)]
    requires q.nextLeaf < m.leaves && q.lastMessage != Some(message)
    ensures var r := m.Attempt(q, message, source);
            m.Run(s, Write(p, message, source, |m.write(r)|))
            == s.(log := s.log + [Present(m.write(r))], tmp := Absent, processes := map[p := Live(r, Renamed)])
  {
    var r := m.Attempt(q, message, source);
    var n := |m.write(r)|;
    var s1 := s.(processes := map[p := Live(r, Attempted)]);
    var s2 := s.(processes := map[p := Live(r, TmpWritten)], tmp := Present(m.write(r)));
    SignRuns(m, s, p, q, message, source);
    WriteTmpRuns(m, s1, p, r);
    RunInParts(m, s, [Sign(p, message, source)], [WriteTmp(p, n)]);
    ReplaceRuns(m, s2, p, r);
    RunInParts(m, s, [Sign(p, message, source)] + [WriteTmp(p, n)], [SyncTmp(p)] + [Rename(p)]);
  }

  lemma ReplaceRuns(m: Machine, s: System, p: nat, r: Record)
    requires |s.log| > 0 && s.processes == map[p := Live(r, TmpWritten)]
    ensures m.Run(s, [SyncTmp(p)] + [Rename(p)])
            == s.(log := s.log + [s.tmp], tmp := Absent, processes := map[p := Live(r, Renamed)])
  {
    SyncTmpRuns(m, s, p, r);
    RenameRuns(m, s.(processes := map[p := Live(r, TmpSynced)]), p, r);
    RunInParts(m, s, [SyncTmp(p)], [Rename(p)]);
  }

  lemma SyncDirRuns(m: Machine, s: System, p: nat, r: Record)
    requires |s.log| > 0 && s.processes == map[p := Live(r, Renamed)]
    ensures m.Run(s, [SyncDir(p)]).processes == map[p := Live(r, Persisted)]
    ensures m.Run(s, [SyncDir(p)]).released == s.released
  {
    RunOnly(m, s, SyncDir(p), Live(r, Renamed));
    OnlyMoves(s, p, Live(r, Renamed), Live(r, Persisted));
    assert m.ProcessStep(s, SyncDir(p), Live(r, Renamed)) == s.With(p, Live(r, Persisted)).Synced().(anchored := true);
  }

  lemma ReleaseRuns(m: Machine, s: System, p: nat, r: Record)
    requires |s.log| > 0 && s.processes == map[p := Live(r, Persisted)]
    ensures m.Run(s, [Return(p)]).released == s.released + m.ReleaseOf(r)
  {
    RunOnly(m, s, Return(p), Live(r, Persisted));
  }

  lemma PublishRuns(m: Machine, s: System, p: nat, r: Record)
    requires |s.log| > 0 && s.processes == map[p := Live(r, Renamed)]
    ensures m.Run(s, Publish(p)).released == s.released + m.ReleaseOf(r)
  {
    SyncDirRuns(m, s, p, r);
    ReleaseRuns(m, m.Run(s, [SyncDir(p)]), p, r);
    RunInParts(m, s, [SyncDir(p)], [Return(p)]);
  }

  /** Two different signatures at one leaf: another message, or the same message under another salt. */
  ghost predicate Reused(s: System) {
    exists x, y :: x in s.released && y in s.released && x.leaf == y.leaf && x != y
  }

  /** The signatures of two records for one leaf have both been handed out. */
  ghost predicate BothOut(m: Machine, s: System, r: Record, r': Record) {
    && r.nextLeaf == r'.nextLeaf && m.ReleaseOf(r) != {} && m.ReleaseOf(r') != {}
    && m.ReleaseOf(r) <= s.released && m.ReleaseOf(r') <= s.released
  }

  lemma BothOutReused(m: Machine, s: System, r: Record, r': Record)
    requires BothOut(m, s, r, r') && (r.lastMessage != r'.lastMessage || r.lastSalt != r'.lastSalt)
    ensures Reused(s)
  {
    var x :| x in m.ReleaseOf(r);
    var y :| y in m.ReleaseOf(r');
    assert x in s.released && y in s.released && x.leaf == y.leaf && x != y;
  }

  /** From the record `q`, the source signs the message (which `q` does not hold) otherwise than `r` did:
      another message than `r`'s, or under another salt. */
  predicate SignsOtherwise(m: Machine, q: Record, r: Record, message: Message, source: Sampling.Source) {
    && q.lastMessage != Some(message) && m.sample(q, message, source).Ok?
    && (r.lastMessage != Some(message) || r.lastSalt != m.sample(q, message, source).value)
  }

  /** Start on the earlier record, and sign a message it does not hold. */
  function SignEarlier(p: nat, earlier: File, message: Message, source: Sampling.Source, n: nat): seq<Event> {
    Reboot(p, earlier) + (Write(p, message, source, n) + Publish(p))
  }

  /** From the start to the release of a fresh attempt. */
  lemma WriteAndPublish(m: Machine, s: System, p: nat, q: Record, message: Message, source: Sampling.Source)
    requires |s.log| > 0 && s.processes == map[p := Live(q, Ready)]
    requires q.nextLeaf < m.leaves && q.lastMessage != Some(message)
    ensures var r := m.Attempt(q, message, source);
            m.Run(s, Write(p, message, source, |m.write(r)|) + Publish(p)).released == s.released + m.ReleaseOf(r)
  {
    var r := m.Attempt(q, message, source);
    var write := Write(p, message, source, |m.write(r)|);
    WriteRuns(m, s, p, q, message, source);
    PublishRuns(m, m.Run(s, write), p, r);
    RunInParts(m, s, write, Publish(p));
  }

  lemma RebootAndSign(m: Machine, s: System, p: nat, earlier: File, q: Record, message: Message, source: Sampling.Source)
    requires |s.log| > 0 && earlier in s.log && m.RecordOf(earlier) == Some(q)
    requires q.nextLeaf < m.leaves && q.lastMessage != Some(message)
    ensures var r := m.Attempt(q, message, source);
            m.Run(s, SignEarlier(p, earlier, message, source, |m.write(r)|)).released == s.released + m.ReleaseOf(r)
  {
    var n := |m.write(m.Attempt(q, message, source))|;
    RebootRuns(m, s, p, earlier, q);
    WriteAndPublish(m, m.Run(s, Reboot(p, earlier)), p, q, message, source);
    RunInParts(m, s, Reboot(p, earlier), Write(p, message, source, n) + Publish(p));
  }

  lemma SignEarlierOpensDurably(m: Machine, s: System, p: nat, earlier: File, message: Message, source: Sampling.Source, n: nat)
    requires |s.log| > 0 && earlier in s.log
    ensures OpensDurably(m, s, SignEarlier(p, earlier, message, source, n))
  {
    RebootOpensDurably(m, s, p, earlier);
    NoOpens(m, m.Run(s, Reboot(p, earlier)), Write(p, message, source, n) + Publish(p));
    OpensInParts(m, s, Reboot(p, earlier), Write(p, message, source, n) + Publish(p));
  }

  lemma RetryRuns(m: Machine, s: System, p: nat, r: Record, source: Sampling.Source)
    requires |s.log| > 0 && s.processes == map[p := Live(r, Ready)] && r.lastMessage.Some?
    ensures m.Run(s, [Sign(p, r.lastMessage.value, source)]) == s.(released := s.released + m.ReleaseOf(r))
  {
    RunOnly(m, s, Sign(p, r.lastMessage.value, source), Live(r, Ready));
  }

  /** Repeat the recorded message, lose power, and sign another from the earlier record. */
  lemma RetryAndReboot(m: Machine, s: System, p: nat, r: Record, earlier: File, q: Record,
                       message: Message, source: Sampling.Source)
    returns (events: seq<Event>)
    requires |s.log| > 0 && s.processes == map[p := Live(r, Ready)] && r.lastMessage.Some?
    requires earlier in s.log && m.RecordOf(earlier) == Some(q)
    requires q.nextLeaf < m.leaves && q.lastMessage != Some(message)
    ensures OpensDurably(m, s, events)
    ensures m.Run(s, events).released == s.released + m.ReleaseOf(r) + m.ReleaseOf(m.Attempt(q, message, source))
  {
    var retry := [Sign(p, r.lastMessage.value, source)];
    var s1 := s.(released := s.released + m.ReleaseOf(r));
    RetryRuns(m, s, p, r, source);
    var n := |m.write(m.Attempt(q, message, source))|;
    var rest := SignEarlier(p, earlier, message, source, n);
    RebootAndSign(m, s1, p, earlier, q, message, source);
    SignEarlierOpensDurably(m, s1, p, earlier, message, source, n);
    RunInParts(m, s, retry, rest);
    NoOpens(m, s, retry);
    OpensInParts(m, s, retry, rest);
    events := retry + rest;
  }

  /** A record with a message, and another attempt from the record before it, both have a signature. */
  lemma BothSign(m: Machine, q: Record, r: Record, message: Message, source: Sampling.Source)
    requires m.Lawful() && m.consistent(q) && m.consistent(r) && r.lastMessage.Some?
    requires m.Follows(q, r) && m.sample(q, message, source).Ok?
    ensures q.nextLeaf < m.leaves && m.ReleaseOf(r) != {} && m.ReleaseOf(m.Attempt(q, message, source)) != {}
  {
    assert m.consistent(m.Attempt(q, message, source));
  }

  /** Whenever a signer stands on a record with a message while the record before it may still come
      back, and a source would sign otherwise there, some continuation hands out both signatures. */
  lemma UnsyncedOpenReuses(m: Machine, s: System, p: nat, r: Record, earlier: File, q: Record,
                           message: Message, source: Sampling.Source)
    requires m.Lawful() && |s.log| > 0 && s.processes == map[p := Live(r, Ready)]
    requires m.consistent(r) && r.lastMessage.Some?
    requires earlier in s.log && m.RecordOf(earlier) == Some(q) && m.Follows(q, r)
    requires SignsOtherwise(m, q, r, message, source)
    ensures exists events :: OpensDurably(m, s, events) && BothOut(m, m.Run(s, events), r, m.Attempt(q, message, source))
  {
    BothSign(m, q, r, message, source);
    var events := RetryAndReboot(m, s, p, r, earlier, q, message, source);
    assert OpensDurably(m, s, events) && BothOut(m, m.Run(s, events), r, m.Attempt(q, message, source));
  }

  /** A killed signer leaves its rename unsynced, and the next one opens the new record. */
  function Takeover(p: nat): seq<Event> {
    [Exit(p)] + Start(p)
  }

  lemma ExitRuns(m: Machine, s: System, p: nat, r: Record)
    requires |s.log| > 0 && s.processes == map[p := Live(r, Renamed)] && s.lock == Some(p)
    ensures var s' := m.Run(s, [Exit(p)]);
            s'.processes == map[] && s'.lock.None? && s'.log == s.log
  {
    RunOnly(m, s, Exit(p), Live(r, Renamed));
  }

  lemma TakeoverRuns(m: Machine, s: System, p: nat, r: Record)
    requires |s.log| > 0 && s.processes == map[p := Live(r, Renamed)] && s.lock == Some(p)
    requires m.RecordOf(s.Current()) == Some(r)
    ensures m.Run(s, Takeover(p)).log == s.log && m.Run(s, Takeover(p)).processes == map[p := Live(r, Ready)]
  {
    ExitRuns(m, s, p, r);
    StartRuns(m, m.Run(s, [Exit(p)]), p, r);
    RunInParts(m, s, [Exit(p)], Start(p));
  }

  /** From any key file with room, and any two ways to sign new messages at its next leaf (two messages,
      or one message with two salts), some run hands out both signatures. */
  lemma LeafReused(m: Machine, q: Record, a: Message, b: Message, source: Sampling.Source, other: Sampling.Source)
    requires m.Lawful() && m.consistent(q) && q.nextLeaf < m.leaves
    requires q.lastMessage != Some(a) && m.sample(q, a, source).Ok?
    requires SignsOtherwise(m, q, m.Attempt(q, a, source), b, other)
    ensures exists events ::
              var end := m.Run(m.Initial(Present(m.write(q))), events);
              Reused(end) && BothOut(m, end, m.Attempt(q, a, source), m.Attempt(q, b, other))
  {
    var p, earlier, r := 0, Present(m.write(q)), m.Attempt(q, a, source);
    assert m.consistent(r) && m.restore(m.write(q)) == Some(q) && m.restore(m.write(r)) == Some(r);
    var s0 := m.Initial(earlier);
    var first := Start(p) + Write(p, a, source, |m.write(r)|) + Takeover(p);
    OpenedUnsynced(m, s0, p, q, a, source);
    UnsyncedOpenReuses(m, m.Run(s0, first), p, r, earlier, q, b, other);
    var rest :| OpensDurably(m, m.Run(s0, first), rest) && BothOut(m, m.Run(m.Run(s0, first), rest), r, m.Attempt(q, b, other));
    RunInParts(m, s0, first, rest);
    BothOutReused(m, m.Run(s0, first + rest), r, m.Attempt(q, b, other));
  }

  /** In particular a caller who asks again for the same message, and gets another salt, gets two
      signatures at one leaf. */
  lemma SameMessageReused(m: Machine, q: Record, a: Message, source: Sampling.Source, other: Sampling.Source)
    requires m.Lawful() && m.consistent(q) && q.nextLeaf < m.leaves && q.lastMessage != Some(a)
    requires m.sample(q, a, source).Ok? && m.sample(q, a, other).Ok? && m.sample(q, a, source) != m.sample(q, a, other)
    ensures exists events :: Reused(m.Run(m.Initial(Present(m.write(q))), events))
  {
    LeafReused(m, q, a, a, source, other);
  }

  /** Sign up to the rename, be killed, and reopen: the new record is open, the old one may return. */
  lemma OpenedUnsynced(m: Machine, s: System, p: nat, q: Record, message: Message, source: Sampling.Source)
    requires |s.log| > 0 && s.processes == map[] && s.lock.None? && m.RecordOf(s.Current()) == Some(q)
    requires q.nextLeaf < m.leaves && q.lastMessage != Some(message)
    requires m.restore(m.write(m.Attempt(q, message, source))) == Some(m.Attempt(q, message, source))
    ensures var r := m.Attempt(q, message, source);
            var end := m.Run(s, Start(p) + Write(p, message, source, |m.write(r)|) + Takeover(p));
            end.log == s.log + [Present(m.write(r))] && end.processes == map[p := Live(r, Ready)]
  {
    var r := m.Attempt(q, message, source);
    var start, write := Start(p), Write(p, message, source, |m.write(r)|);
    StartRuns(m, s, p, q);
    var s1 := m.Run(s, start);
    WriteRuns(m, s1, p, q, message, source);
    TakeoverRuns(m, m.Run(s1, write), p, r);
    RunInParts(m, s, start, write);
    RunInParts(m, s, start + write, Takeover(p));
  }

  // ----- exactly: which opens are safe -----

  /** Every record with a message on file was put over the one before it, and unsynced content lies
      over something older. */
  ghost predicate Stepwise(m: Machine, s: System) {
    && |s.log| > 0
    && (s.dirty ==> |s.log| > 1)
    && forall k :: 0 < k < |s.log| && HoldsMessage(m, s.log[k]) ==> m.Further(s.log[k - 1], s.log[k], 1)
  }

  /** A new file or a file of `create` holds no message, and a renamed record follows the one it replaces. */
  lemma AppendStepwise(m: Machine, s: System, file: File)
    requires Stepwise(m, s) && (HoldsMessage(m, file) ==> m.Further(s.Current(), file, 1))
    ensures forall s': System :: s'.log == s.log + [file] ==> Stepwise(m, s')
  {
  }

  lemma WriteStepwise(m: Machine, s: System, p: nat, n: nat)
    requires m.Lawful() && m.Inv(s) && Stepwise(m, s) && p in s.processes && s.processes[p].Sampled?
    ensures Stepwise(m, m.Step(s, CreateWrite(p, n)))
  {
    var r := s.processes[p].state;
    assert m.restore(m.write(r)) == Some(r);
    AppendStepwise(m, s, Present(if n < |m.write(r)| then m.write(r)[..n] else m.write(r)));
  }

  lemma RenameStepwise(m: Machine, s: System, p: nat)
    requires m.Lawful() && m.Inv(s) && Stepwise(m, s) && p in s.processes
    requires s.processes[p].Live? && s.processes[p].phase.TmpSynced?
    ensures Stepwise(m, m.Step(s, Rename(p)))
  {
    var r := s.processes[p].state;
    assert m.restore(m.write(r)) == Some(r);
    AppendStepwise(m, s, s.tmp);
  }

  /** Nothing is appended, and nothing becomes unsynced. */
  ghost predicate Appendless(s: System, s': System) {
    (s'.log == s.log && (s'.dirty ==> s.dirty)) || (|s'.log| == 1 && !s'.dirty)
  }

  lemma StepStepwise(m: Machine, s: System, e: Event)
    requires m.Lawful() && m.Inv(s) && Stepwise(m, s)
    ensures Stepwise(m, m.Step(s, e))
  {
    if e.PowerLoss? || e.Lock? || e.Sync? || e.p !in s.processes {
      assert Appendless(s, m.Step(s, e));
    } else {
      ProcessStepwise(m, s, e, s.processes[e.p]);
    }
  }

  lemma ProcessStepwise(m: Machine, s: System, e: Event, process: Process)
    requires m.Lawful() && m.Inv(s) && Stepwise(m, s)
    requires !e.PowerLoss? && !e.Lock? && !e.Sync? && e.p in s.processes && s.processes[e.p] == process
    ensures Stepwise(m, m.ProcessStep(s, e, process))
  {
    if e.CreateFile? {
      AppendStepwise(m, s, Present([]));
    } else if e.CreateWrite? && process.Sampled? {
      WriteStepwise(m, s, e.p, e.n);
    } else if e.Rename? && process.Live? && process.phase.TmpSynced? {
      RenameStepwise(m, s, e.p);
    } else {
      OthersAppendNothing(m, s, e, process);
    }
  }

  lemma OthersAppendNothing(m: Machine, s: System, e: Event, process: Process)
    requires |s.log| > 0 && !e.PowerLoss? && !e.Lock? && !e.Sync? && !e.CreateFile?
    requires e.CreateWrite? ==> !process.Sampled?
    requires e.Rename? && process.Live? ==> !process.phase.TmpSynced?
    ensures Appendless(s, m.ProcessStep(s, e, process))
  {
  }

  lemma {:induction false} RunStepwise(m: Machine, s: System, events: seq<Event>)
    requires m.Lawful() && m.Inv(s) && Stepwise(m, s) && m.RunKeepsOpened(s, events)
    ensures Stepwise(m, m.Run(s, events))
    decreases |events|
  {
    if |events| > 0 {
      StepInv(m, s, events[0]);
      StepStepwise(m, s, events[0]);
      RunStepwise(m, m.Step(s, events[0]), events[1..]);
    }
  }

  /** The states of all runs whose opens are durable. */
  ghost predicate DurablyReached(m: Machine, s: System) {
    exists file, events :: OpensDurably(m, m.Initial(file), events) && s == m.Run(m.Initial(file), events)
  }

  lemma DurablyReachedInv(m: Machine, s: System)
    requires m.Lawful() && DurablyReached(m, s)
    ensures m.Inv(s) && KeepsAll(s) && Stepwise(m, s)
  {
    var file, events :| OpensDurably(m, m.Initial(file), events) && s == m.Run(m.Initial(file), events);
    InitialInv(m, file);
    DurableOpensKeep(m, m.Initial(file), events);
    RunStepwise(m, m.Initial(file), events);
  }

  /** No continuation whose own opens are durable hands out two different signatures at one leaf. */
  ghost predicate SafeFrom(m: Machine, s: System)
    requires |s.log| > 0
  {
    forall events :: OpensDurably(m, s, events) ==> !Reused(m.Run(s, events))
  }

  lemma KeepsAllSafe(m: Machine, s: System)
    requires m.Lawful() && m.Inv(s) && KeepsAll(s)
    ensures SafeFrom(m, s)
  {
    forall events | OpensDurably(m, s, events)
      ensures !Reused(m.Run(s, events))
    {
      DurableOpensKeep(m, s, events);
    }
  }

  /** The file before the current one, which a power failure may bring back. */
  function Preceding(s: System): File
    requires |s.log| > 1
  {
    s.log[|s.log| - 2]
  }

  /** An unsynced record with a message has a predecessor, from which its leaf can be signed again. */
  lemma UnsyncedOpenUnsafe(m: Machine, s: System, p: nat, r: Record, message: Message, source: Sampling.Source)
    requires m.Lawful() && m.Inv(s) && Stepwise(m, s) && s.processes == map[p := Starting]
    requires m.RecordOf(s.Current()) == Some(r) && r.lastMessage.Some? && |s.log| > 1
    requires m.RecordOf(Preceding(s)).Some? ==> SignsOtherwise(m, m.RecordOf(Preceding(s)).value, r, message, source)
    ensures !SafeFrom(m, m.Step(s, Open(p)))
  {
    assert HoldsMessage(m, s.Current()) && m.Further(s.log[|s.log| - 1 - 1], s.log[|s.log| - 1], 1);
    var q := m.RecordOf(Preceding(s)).value;
    assert m.Step(s, Open(p)) == s.Opened(p, r);
    UnsyncedOpenReuses(m, s.Opened(p, r), p, r, Preceding(s), q, message, source);
    var r' := m.Attempt(q, message, source);
    var events :| OpensDurably(m, s.Opened(p, r), events) && BothOut(m, m.Run(s.Opened(p, r), events), r, r');
    BothOutReused(m, m.Run(s.Opened(p, r), events), r, r');
  }

  /** Which opens are safe, exactly. After any run whose opens were durable, opening the record on file
      is safe if and only if the directory is synced or the record holds no message; the leaf of an
      unsynced message is at risk as soon as another message, or another salt, is accepted there. */
  lemma OpenSafeIff(m: Machine, s: System, p: nat, r: Record, message: Message, source: Sampling.Source)
    requires m.Lawful() && DurablyReached(m, s) && s.processes == map[p := Starting]
    requires |s.log| > 0 && m.RecordOf(s.Current()) == Some(r)
    requires r.lastMessage.Some? && |s.log| > 1 && m.RecordOf(Preceding(s)).Some? ==>
               SignsOtherwise(m, m.RecordOf(Preceding(s)).value, r, message, source)
    ensures SafeFrom(m, m.Step(s, Open(p))) <==> s.Durable() || r.lastMessage.None?
  {
    DurablyReachedInv(m, s);
    if s.Durable() || r.lastMessage.None? {
      StepKeepsAll(m, s, Open(p));
      StepInv(m, s, Open(p));
      KeepsAllSafe(m, m.Step(s, Open(p)));
    } else {
      UnsyncedOpenUnsafe(m, s, p, r, message, source);
    }
  }

  /** Syncing first repairs an unsynced record: after a kill between the rename and the directory sync,
      sync and open, and the signer stands on the new record with nothing left to come back. */
  lemma SyncRepairs(m: Machine, s: System, p: nat, r: Record)
    requires |s.log| > 0 && s.processes == map[] && s.lock.None? && m.RecordOf(s.Current()) == Some(r)
    ensures SyncsFirst(m, s, [Sync(p)] + Start(p), false)
    ensures var end := m.Run(s, [Sync(p)] + Start(p));
            && end.Durable() && end.Current() == s.Current() && end.released == s.released
            && end.processes == map[p := Live(r, Ready)]
  {
    RunOne(m, s, Sync(p));
    StartRuns(m, s.Synced(), p, r);
    RunInParts(m, s, [Sync(p)], Start(p));
    var locked := m.Step(s.Synced(), Lock(p));
    assert [Open(p)][1..] == [] && SyncsFirst(m, locked, [Open(p)], true);
    assert Start(p)[1..] == [Open(p)] && SyncsFirst(m, s.Synced(), Start(p), true);
    assert ([Sync(p)] + Start(p))[1..] == Start(p);
  }

  // ----- a concrete reuse -----

  lemma {:induction false} SumAppends(x: seq<nat>, y: seq<nat>)
    ensures Sum(x + y) == Sum(x) + Sum(y)
  {
    if |y| == 0 {
      assert x + y == x;
    } else {
      SumAppends(x, y[..|y| - 1]);
      assert (x + y)[..|x + y| - 1] == x + y[..|y| - 1];
    }
  }

  lemma {:induction false} SumRepeats(n: nat, d: nat)
    ensures Sum(Leaves.Repeat(n, d)) == n * d
  {
    if n > 0 {
      SumRepeats(n - 1, d);
      assert Leaves.Repeat(n, d)[..n - 1] == Leaves.Repeat(n - 1, d);
    }
  }

  /** A hash value whose 36 digits add up to 297: eighteen 15s, a 15, a 12 and zeros. */
  function AcceptedDigest(): Digest {
    seq(9, _ => 255) + [12 * 16 + 15] + Zeros(22)
  }

  lemma AcceptedDigestEncodes(t: TweakHash, salt: Salt, leaf: u32, message: Message)
    requires t.hash(t.MessageInput(salt, leaf, message)) == AcceptedDigest()
    ensures t.Encode(salt, leaf, message).Some?
  {
    var x := t.DigitsOf(salt, leaf, message);
    var high, mid, low: seq<nat> := Leaves.Repeat(18, 15), [15, 12], Leaves.Repeat(16, 0);
    assert x == high + mid + low;
    SumAppends(high + mid, low);
    SumAppends(high, mid);
    SumRepeats(18, 15);
    SumRepeats(16, 0);
    assert mid[..1] == [15] && Sum([15]) == 15;
  }

  /** Signatures for two messages at leaf 0. */
  ghost predicate TwoMessages(s: System) {
    exists x, y :: x in s.released && y in s.released && x.leaf == 0 && y.leaf == 0 && x.message != y.message
  }

  lemma BothOutTwoMessages(m: Machine, s: System, r: Record, r': Record)
    requires BothOut(m, s, r, r') && r.nextLeaf == 1 && r.lastMessage != r'.lastMessage
    ensures TwoMessages(s)
  {
    var x :| x in m.ReleaseOf(r);
    var y :| y in m.ReleaseOf(r');
    assert x in s.released && y in s.released && x.message != y.message;
  }

  /** From a new key, any two messages with accepted salts at leaf 0 are both signed there in some run. */
  lemma FirstLeafReused(m: Machine, q: Record, a: Message, b: Message, source: Sampling.Source)
    requires m.Lawful() && m.consistent(q) && q.nextLeaf == 0 < m.leaves && q.lastMessage.None?
    requires a != b && m.sample(q, a, source).Ok? && m.sample(q, b, source).Ok?
    ensures exists events :: TwoMessages(m.Run(m.Initial(Present(m.write(q))), events))
  {
    var start, r, r' := m.Initial(Present(m.write(q))), m.Attempt(q, a, source), m.Attempt(q, b, source);
    LeafReused(m, q, a, b, source, source);
    var events :| BothOut(m, m.Run(start, events), r, r');
    BothOutTwoMessages(m, m.Run(start, events), r, r');
  }

  /** Under a hash whose every value has accepted digits, the first salt is accepted. */
  lemma AcceptedSample(hash: Hash, q: Record, message: Message, source: Sampling.Source)
    requires q.nextLeaf == 0 && source(0).Ok? && hash(TweakHash(hash, q.parameter).MessageInput(source(0).value, 0, message)) == AcceptedDigest()
    ensures For(Tree, hash).sample(q, message, source).Ok?
  {
    AcceptedDigestEncodes(TweakHash(hash, q.parameter), source(0).value, 0, message);
  }

  /** The one-message rule fails without the assumption: a hash, a key file and a run of the 256-leaf
      instance that hands out signatures for two messages at leaf 0. */
  lemma AssumptionNeeded()
    ensures exists hash, file, events :: TwoMessages(For(Tree, hash).Run(For(Tree, hash).Initial(file), events))
  {
    var hash: Hash := _ => AcceptedDigest();
    var m := For(Tree, hash);
    ForLawful(Tree, hash);
    var q := m.Fresh(Zeros(Tree.SecretsLength()), Zeros(PARAMETER_LENGTH));
    var a, b: Message := Zeros(MESSAGE_LENGTH), Zeros(MESSAGE_LENGTH)[0 := 1];
    var source: Sampling.Source := _ => Ok(Zeros(SALT_LENGTH));
    AcceptedSample(hash, q, a, source);
    AcceptedSample(hash, q, b, source);
    assert a[0] != b[0];
    FirstLeafReused(m, q, a, b, source);
  }
}
