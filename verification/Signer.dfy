/**
 The signer as code: a key file in a store whose operations may fail, and `SigningKey` with its
 fields. Every method's effect is a run of the machine, event by event, so what holds of the
 machine's runs holds of this code, crashes between any two operations included.
 */
module Signer {
  import opened Bytes
  import opened TweakHash
  import opened Instances
  import opened Records
  import opened Machine
  import opened MachineSafety
  import opened MachineTheorems
  import Sampling

  /** The later history continues the earlier one by events of process `p` alone. */
  ghost predicate Continues(earlier: seq<Event>, later: seq<Event>, p: nat) {
    && earlier <= later
    && forall e :: e in later[|earlier|..] ==> !e.PowerLoss? && e.p == p
  }

  lemma ContinuesTransitive(a: seq<Event>, b: seq<Event>, c: seq<Event>, p: nat)
    requires Continues(a, b, p) && Continues(b, c, p)
    ensures Continues(a, c, p)
  {
    assert c[|a|..] == b[|a|..] + c[|b|..];
  }

  /** How a file operation ends: it works, or it fails, with `written` bytes of a write in place, and with
      a rename `done` or not. */
  datatype Fault = Works | Fails(written: nat, done: bool)

  /** The files at one path, with the machine run that explains them. */
  class Store {
    const m: Machine
    /** The fate of each file operation, in the order of the calls; `ops` counts them. */
    const disk: nat -> Fault
    var ops: nat
    var main: File
    var tmp: File
    var holder: Option<nat>
    ghost const start: File
    ghost var history: seq<Event>
    ghost var system: System

    ghost predicate Valid()
      reads this
    {
      && Explained()
      && system.Current() == main && system.tmp == tmp && system.lock == holder
    }

    /** The ghost state is a run of the machine, with any power failures keeping opened records. */
    ghost predicate Explained()
      reads this
    {
      m.Lawful() && system == m.Run(m.Initial(start), history) && m.RunKeepsOpened(m.Initial(start), history)
    }

    lemma Invariant()
      requires Explained()
      ensures m.Inv(system)
    {
      InitialInv(m, start);
      RunInv(m, m.Initial(start), history);
    }

    ghost predicate At(p: nat, process: Process)
      reads this
    {
      p in system.processes && system.processes[p] == process
    }

    /** Whatever signers have done here, no leaf has two messages. */
    lemma OneMessagePerLeafHere(x: Release, y: Release)
      requires Explained() && x in system.released && y in system.released && x.leaf == y.leaf
      ensures x == y
    {
      Invariant();
    }

    constructor (m: Machine, file: File, disk: nat -> Fault)
      requires m.Lawful()
      ensures Valid() && this.m == m && main == start == file && history == [] && holder.None?
      ensures this.disk == disk && ops == 0
    {
      this.disk, this.ops := disk, 0;
      this.m, this.main, this.tmp, this.holder := m, file, Absent, None;
      this.start, this.history, this.system := file, [], m.Initial(file);
    }

    /** Record an event of a process in the machine run. */
    ghost method Happens(e: Event)
      requires Explained() && !e.PowerLoss?
      modifies this`history, this`system
      ensures Explained() && system == m.Step(old(system), e) && history == old(history) + [e]
      ensures Continues(old(history), history, e.p)
    {
      Invariant();
      RunInParts(m, m.Initial(start), history, [e]);
      system := m.Step(system, e);
      history := history + [e];
    }

    /** The next `n` operations from `from` on all work. */
    ghost predicate AllWork(from: nat, n: nat) {
      forall k :: from <= k < from + n ==> disk(k).Works?
    }

    lemma WorkSplits(from: nat, a: nat, b: nat)
      ensures AllWork(from, a + b) <==> AllWork(from, a) && AllWork(from + a, b)
    {
    }

    /** Call the file system once. */
    method Operate() returns (works: bool)
      modifies this`ops
      ensures (works <==> AllWork(old(ops), 1)) && ops == old(ops) + 1
    {
      works := disk(ops).Works?;
      ops := ops + 1;
    }

    /** Power fails: some file that may have survived remains, never one older than a signer has read. */
    method PowerFails(survivor: File, tmp': File)
      requires Valid() && survivor in system.log
      requires system.floor <= |system.log| && m.KeepsOpened(system, PowerLoss(survivor, tmp'))
      modifies this
      ensures Valid() && main == survivor && holder.None? && system.processes == map[]
      ensures system.released == old(system.released) && history == old(history) + [PowerLoss(survivor, tmp')]
    {
      var e := PowerLoss(survivor, tmp');
      Invariant();
      RunInParts(m, m.Initial(start), history, [e]);
      system := m.Step(system, e);
      history := history + [e];
      main, tmp, holder := survivor, tmp', None;
    }

    /** Take the sidecar lock, or find it held. */
    method TryLock(p: nat) returns (ok: bool)
      requires Valid() && p !in system.processes
      modifies this
      ensures Valid() && main == old(main) && Continues(old(history), history, p) && ops == old(ops)
      ensures system.released == old(system.released)
      ensures ok == old(holder).None? && holder == if ok then Some(p) else old(holder)
      ensures if ok then At(p, Starting) else p !in system.processes
    {
      ok := holder.None?;
      if ok {
        holder := Some(p);
      }
      Happens(Lock(p));
    }

    /** Drop the lock with its process. */
    method Leave(p: nat)
      requires Valid() && p in system.processes
      modifies this
      ensures Valid() && main == old(main) && tmp == old(tmp) && holder.None? && p !in system.processes
      ensures system.released == old(system.released) && Continues(old(history), history, p) && ops == old(ops)
    {
      Invariant();
      holder := None;
      Happens(Exit(p));
    }

    /** A caller syncs the key file and its directory: nothing older can come back. */
    method SyncFiles(p: nat)
      requires Valid()
      modifies this
      ensures Valid() && main == old(main) && tmp == old(tmp) && holder == old(holder) && system.Durable()
      ensures system.processes == old(system.processes) && system.released == old(system.released)
      ensures Continues(old(history), history, p)
    {
      Happens(Event.Sync(p));
    }

    // ----- steps in memory: no file is touched -----

    /** The recorded signature goes to the caller. */
    ghost method HandOut(p: nat, r: Record, message: Message, source: Sampling.Source)
      requires Valid() && At(p, Live(r, Ready)) && r.lastMessage == Some(message)
      modifies this`history, this`system
      ensures Valid() && At(p, Live(r, Ready)) && Continues(old(history), history, p)
      ensures system.released == old(system.released) + m.ReleaseOf(r)
    {
      Happens(Sign(p, message, source));
    }

    /** A new attempt replaces the state in memory. */
    ghost method Begin(p: nat, r: Record, message: Message, source: Sampling.Source)
      requires Valid() && At(p, Live(r, Ready)) && r.lastMessage != Some(message) && r.nextLeaf < m.leaves
      modifies this`history, this`system
      ensures Valid() && At(p, Live(m.Attempt(r, message, source), Attempted)) && Continues(old(history), history, p)
      ensures system.released == old(system.released)
    {
      Happens(Sign(p, message, source));
    }

    /** A persisted attempt ends: its signature, if it has one, goes to the caller. */
    ghost method Finish(p: nat, r: Record)
      requires Valid() && At(p, Live(r, Persisted))
      modifies this`history, this`system
      ensures Valid() && At(p, Live(r, Ready)) && Continues(old(history), history, p)
      ensures system.released == old(system.released) + m.ReleaseOf(r) && system.log == old(system.log)
      ensures system.dirty == old(system.dirty)
    {
      Happens(Return(p));
    }

    // ----- opening and creating -----

    /** Read the key file: a record brings the process to life, anything else ends it. */
    method ReadRecord(p: nat) returns (r: Option<Record>)
      requires Valid() && At(p, Starting)
      modifies this
      ensures Valid() && main == old(main) && system.released == old(system.released)
      ensures Continues(old(history), history, p) && ops == old(ops)
      ensures r == m.RecordOf(main)
      ensures if r.Some? then At(p, Live(r.value, Ready)) && holder == old(holder) else p !in system.processes && holder.None?
    {
      Invariant();
      r := if main.Present? then m.restore(main.bytes) else None;
      if r.None? {
        holder := None;
      }
      Happens(Open(p));
    }

    /** Create the empty key file, unless there is one. */
    method NewFile(p: nat) returns (ok: bool)
      requires Valid() && At(p, Starting)
      modifies this
      ensures Valid() && Continues(old(history), history, p) && system.released == old(system.released)
      ensures ops == old(ops)
      ensures ok == old(main).Absent? && main == if ok then Present([]) else old(main)
      ensures if ok then At(p, CreatedFile) else p !in system.processes && holder.None?
    {
      Invariant();
      ok := main.Absent?;
      if ok {
        main := Present([]);
      } else {
        holder := None;
      }
      Happens(CreateFile(p));
    }

    ghost method Sampled(p: nat, secrets: Bytes, parameter: Parameter)
      requires Valid() && At(p, CreatedFile) && m.wellKeyed(secrets)
      modifies this`history, this`system
      ensures Valid() && Continues(old(history), history, p) && system.released == old(system.released)
      ensures At(p, Process.Sampled(m.Fresh(secrets, parameter)))
    {
      Happens(CreateSample(p, secrets, parameter));
    }

    /** Write the first record in place; a failure may leave a part of it. */
    method WriteNew(p: nat, ghost r: Record, record: Bytes) returns (ok: bool)
      requires Valid() && At(p, Process.Sampled(r)) && record == m.write(r)
      modifies this
      ensures Valid() && Continues(old(history), history, p) && system.released == old(system.released)
      ensures (ok <==> AllWork(old(ops), 1)) && ops == old(ops) + 1
      ensures if ok then At(p, RecordWritten(r)) && main == Present(record) else p in system.processes
    {
      var fault := disk(ops);
      ok := Operate();
      var n := if ok then |record| else fault.written;
      main := Present(if n < |record| then record[..n] else record);
      Happens(CreateWrite(p, n));
    }

    /** Sync the new file; on success its content is durable. */
    method SyncNew(p: nat, ghost r: Record) returns (ok: bool)
      requires Valid() && At(p, RecordWritten(r))
      modifies this
      ensures Valid() && main == old(main) && system.released == old(system.released)
      ensures Continues(old(history), history, p)
      ensures At(p, if ok then RecordSynced(r) else RecordWritten(r))
      ensures (ok <==> AllWork(old(ops), 1)) && ops == old(ops) + 1
    {
      ok := Operate();
      if ok {
        Happens(CreateSync(p));
      }
    }

    /** Sync the directory; only now is the signer alive. */
    method SyncNewDirectory(p: nat, ghost r: Record) returns (ok: bool)
      requires Valid() && At(p, RecordSynced(r))
      modifies this
      ensures Valid() && main == old(main) && system.released == old(system.released)
      ensures Continues(old(history), history, p)
      ensures At(p, if ok then Live(r, Ready) else RecordSynced(r))
      ensures ok ==> system.Durable()
      ensures (ok <==> AllWork(old(ops), 1)) && ops == old(ops) + 1
    {
      ok := Operate();
      if ok {
        Happens(CreateSyncDir(p));
      }
    }

    // ----- replacing the record -----

    /** A failed operation between the attempt and the release leaves the signer unusable. */
    method Abort(p: nat, ghost r: Record, ghost phase: Phase)
      requires Valid() && At(p, Live(r, phase)) && !phase.Ready? && !phase.Unusable?
      modifies this
      ensures Valid() && main == old(main) && system.released == old(system.released)
      ensures Continues(old(history), history, p) && At(p, Live(r, Unusable)) && ops == old(ops)
    {
      Happens(Fail(p));
    }

    /** Truncate the temporary file and write the record, or a part of it. */
    method FillTmp(p: nat, ghost r: Record, record: Bytes, n: nat)
      requires Valid() && At(p, Live(r, Attempted)) && record == m.write(r)
      modifies this
      ensures Valid() && main == old(main) && system.released == old(system.released)
      ensures Continues(old(history), history, p) && ops == old(ops)
      ensures At(p, Live(r, if n < |record| then Attempted else TmpWritten))
    {
      tmp := Present(if n < |record| then record[..n] else record);
      Happens(Event.WriteTmp(p, n));
    }

    /** A failure may leave a part of the record in the temporary file. */
    method WriteTmp(p: nat, ghost r: Record, record: Bytes) returns (ok: bool)
      requires Valid() && At(p, Live(r, Attempted)) && record == m.write(r)
      modifies this
      ensures Valid() && main == old(main) && system.released == old(system.released)
      ensures Continues(old(history), history, p)
      ensures At(p, Live(r, if ok then TmpWritten else Unusable))
      ensures (ok <==> AllWork(old(ops), 1)) && ops == old(ops) + 1
    {
      var fault := disk(ops);
      ok := Operate();
      var n := if ok then |record| else fault.written;
      FillTmp(p, r, record, n);
      if !ok {
        ghost var written := history;
        Abort(p, r, if n < |record| then Attempted else TmpWritten);
        ContinuesTransitive(old(history), written, history, p);
      }
    }

    method SyncTmp(p: nat, ghost r: Record) returns (ok: bool)
      requires Valid() && At(p, Live(r, TmpWritten))
      modifies this
      ensures Valid() && main == old(main) && system.released == old(system.released)
      ensures Continues(old(history), history, p)
      ensures At(p, Live(r, if ok then TmpSynced else Unusable))
      ensures (ok <==> AllWork(old(ops), 1)) && ops == old(ops) + 1
    {
      ok := Operate();
      if ok {
        Happens(Event.SyncTmp(p));
      } else {
        Abort(p, r, TmpWritten);
      }
    }

    /** The rename itself. */
    method MoveTmp(p: nat, ghost r: Record)
      requires Valid() && At(p, Live(r, TmpSynced))
      modifies this
      ensures Valid() && main == Present(m.write(r)) && system.released == old(system.released)
      ensures Continues(old(history), history, p) && At(p, Live(r, Renamed)) && ops == old(ops)
    {
      Invariant();
      main, tmp := tmp, Absent;
      Happens(Rename(p));
    }

    /** Atomic: the key file is the new record or the old one, whatever is reported. */
    method RenameTmp(p: nat, ghost r: Record) returns (ok: bool)
      requires Valid() && At(p, Live(r, TmpSynced))
      modifies this
      ensures Valid() && (main == old(main) || main == Present(m.write(r))) && system.released == old(system.released)
      ensures Continues(old(history), history, p)
      ensures At(p, Live(r, if ok then Renamed else Unusable))
      ensures ok ==> main == Present(m.write(r))
      ensures (ok <==> AllWork(old(ops), 1)) && ops == old(ops) + 1
    {
      var fault := disk(ops);
      ok := Operate();
      var done := ok || fault.done;
      ghost var before := history;
      if done {
        MoveTmp(p, r);
      }
      if !ok {
        ghost var renamed := history;
        Abort(p, r, if done then Renamed else TmpSynced);
        ContinuesTransitive(before, renamed, history, p);
      }
    }

    method SyncDirectory(p: nat, ghost r: Record) returns (ok: bool)
      requires Valid() && At(p, Live(r, Renamed))
      modifies this
      ensures Valid() && main == old(main) && system.released == old(system.released)
      ensures Continues(old(history), history, p)
      ensures At(p, Live(r, if ok then Persisted else Unusable))
      ensures ok ==> system.Durable()
      ensures (ok <==> AllWork(old(ops), 1)) && ops == old(ops) + 1
    {
      ok := Operate();
      if ok {
        Happens(SyncDir(p));
      } else {
        Abort(p, r, Renamed);
      }
    }
  }

  // ----- the machine's operations, as code -----

  /** How often an attempt from this state asks the source. */
  ghost predicate Asks(m: Machine, hash: Hash, r: Record, message: Message, source: Sampling.Source, requests: nat) {
    Sampling.SampledIn(TweakHash(hash, r.parameter), r.nextLeaf, message, source, m.sample(r, message, source), requests)
  }

  method SampleNext(i: Instance, hash: Hash, r: Record, message: Message, source: Sampling.Source)
    returns (sampled: Result<Salt, Sampling.SigningError>, requests: nat)
    ensures sampled == For(i, hash).sample(r, message, source) && requests <= 4096
    ensures Asks(For(i, hash), hash, r, message, source, requests)
  {
    sampled, requests := Sampling.SampleSalt(TweakHash(hash, r.parameter), r.nextLeaf, message, source);
  }

  method PrintRecord(i: Instance, ghost hash: Hash, r: Record) returns (b: Bytes)
    ensures b == For(i, hash).write(r)
  {
    b := WriteRecord(i, r);
  }

  method SignRecorded(i: Instance, ghost hash: Hash, raw: RawKey, ghost r: Record, leaf: u32, message: Message, salt: Salt)
    returns (sig: Option<Bytes>)
    requires raw.Valid() && raw.Instance() == i && raw.Key() == r.Key(i, hash) && |r.secrets| == i.SecretsLength()
    requires r.nextLeaf == leaf + 1 && r.lastMessage == Some(message) && r.lastSalt == salt
    ensures sig == For(i, hash).Signature(r)
  {
    sig := SignAtWithSalt(raw, leaf, message, salt);
  }

  // ----- persisting an attempt -----

  /** `write`: temporary file, sync, rename, directory sync; the first failure ends it. */
  method WriteFile(i: Instance, ghost hash: Hash, store: Store, p: nat, r: Record) returns (ok: bool)
    requires store.Valid() && store.m == For(i, hash) && store.At(p, Live(r, Attempted))
    modifies store
    ensures store.Valid() && Continues(old(store.history), store.history, p)
    ensures store.system.released == old(store.system.released)
    ensures store.At(p, Live(r, if ok then Persisted else Unusable))
    ensures store.main == Present(store.m.write(r)) || (!ok && store.main == old(store.main))
    ensures ok ==> store.system.Durable()
    // it succeeds exactly when the file system does
    ensures ok <==> store.AllWork(old(store.ops), 4)
  {
    ghost var before := store.history;
    store.WorkSplits(store.ops, 2, 2);
    ok := PrepareFile(i, hash, store, p, r);
    if ok {
      ghost var prepared := store.history;
      ok := ReplaceFile(store, p, r);
      ContinuesTransitive(before, prepared, store.history, p);
    }
  }

  /** The first half of `write`: the record in the temporary file, synced. */
  method PrepareFile(i: Instance, ghost hash: Hash, store: Store, p: nat, r: Record) returns (ok: bool)
    requires store.Valid() && store.m == For(i, hash) && store.At(p, Live(r, Attempted))
    modifies store
    ensures store.Valid() && Continues(old(store.history), store.history, p)
    ensures store.system.released == old(store.system.released) && store.main == old(store.main)
    ensures store.At(p, Live(r, if ok then TmpSynced else Unusable))
    ensures ok <==> store.AllWork(old(store.ops), 2)
    ensures ok ==> store.ops == old(store.ops) + 2
  {
    ghost var before := store.history;
    store.WorkSplits(store.ops, 1, 1);
    var record := PrintRecord(i, hash, r);
    ok := store.WriteTmp(p, r, record);
    if ok {
      ghost var written := store.history;
      ok := store.SyncTmp(p, r);
      ContinuesTransitive(before, written, store.history, p);
    }
  }

  /** The second half: the rename, and the directory synced. */
  method ReplaceFile(store: Store, p: nat, ghost r: Record) returns (ok: bool)
    requires store.Valid() && store.At(p, Live(r, TmpSynced))
    modifies store
    ensures store.Valid() && Continues(old(store.history), store.history, p)
    ensures store.system.released == old(store.system.released)
    ensures store.At(p, Live(r, if ok then Persisted else Unusable))
    ensures store.main == Present(store.m.write(r)) || (!ok && store.main == old(store.main))
    ensures ok ==> store.system.Durable()
    ensures ok <==> store.AllWork(old(store.ops), 2)
  {
    ghost var before := store.history;
    store.WorkSplits(store.ops, 1, 1);
    ok := store.RenameTmp(p, r);
    if ok {
      ghost var renamed := store.history;
      ok := store.SyncDirectory(p, r);
      ContinuesTransitive(before, renamed, store.history, p);
    }
  }

  /** Write the attempt's record, and only then let its signature go. */
  method Commit(i: Instance, ghost hash: Hash, store: Store, p: nat, r: Record) returns (ok: bool)
    requires store.Valid() && store.m == For(i, hash) && store.At(p, Live(r, Attempted))
    modifies store
    ensures store.Valid() && Continues(old(store.history), store.history, p)
    ensures store.At(p, Live(r, if ok then Ready else Unusable))
    ensures store.main == Present(store.m.write(r)) || (!ok && store.main == old(store.main))
    ensures ok ==> store.system.Durable()
    // it succeeds exactly when the file system does
    ensures ok <==> store.AllWork(old(store.ops), 4)
    ensures store.system.released == old(store.system.released) + if ok then store.m.ReleaseOf(r) else {}
  {
    ok := WriteFile(i, hash, store, p, r);
    if ok {
      ghost var written := store.history;
      store.Finish(p, r);
      ContinuesTransitive(old(store.history), written, store.history, p);
    }
  }

  /** Put an attempt on file that was just made in memory. */
  method Persist(i: Instance, ghost hash: Hash, store: Store, p: nat, ghost before: Record, ghost message: Message,
                 ghost source: Sampling.Source, r: Record)
    returns (ok: bool)
    requires store.Valid() && store.m == For(i, hash) && store.At(p, Live(before, Ready))
    requires before.lastMessage != Some(message) && before.nextLeaf < store.m.leaves
    requires r == store.m.Attempt(before, message, source)
    modifies store
    ensures store.Valid() && Continues(old(store.history), store.history, p)
    ensures store.At(p, Live(r, if ok then Ready else Unusable))
    ensures store.main == Present(store.m.write(r)) || (!ok && store.main == old(store.main))
    ensures ok ==> store.system.Durable()
    // it succeeds exactly when the file system does
    ensures ok <==> store.AllWork(old(store.ops), 4)
    ensures store.system.released == old(store.system.released) + if ok then store.m.ReleaseOf(r) else {}
  {
    ghost var history := store.history;
    store.Begin(p, before, message, source);
    ghost var begun := store.history;
    ok := Commit(i, hash, store, p, r);
    ContinuesTransitive(history, begun, store.history, p);
  }

  // ----- `SigningKey` -----

  class SigningKey {
    const i: Instance
    const hash: Hash
    const p: nat                       // the process
    const store: Store
    const key: RawKey
    const parameter: Parameter
    const secrets: Bytes
    var nextLeaf: u32
    var lastMessage: Option<Message>
    var lastSalt: Salt
    var failed: bool

    function State(): Record
      reads this
    {
      Record(parameter, nextLeaf, lastMessage, lastSalt, secrets)
    }

    ghost predicate Valid()
      reads this, store
    {
      && store.Valid() && store.m == For(i, hash)
      && key.Valid() && key.Instance() == i && key.Key() == State().Key(i, hash) && |secrets| == i.SecretsLength()
      && store.At(p, Live(State(), if failed then Unusable else Ready))
    }

    /** A signer just come to life on a state. */
    constructor (i: Instance, hash: Hash, p: nat, store: Store, key: RawKey, r: Record)
      requires store.Valid() && store.m == For(i, hash) && store.At(p, Live(r, Ready))
      requires key.Valid() && key.Instance() == i && key.Key() == r.Key(i, hash) && |r.secrets| == i.SecretsLength()
      ensures Valid() && State() == r && !failed
      ensures this.store == store && this.p == p && this.i == i && this.hash == hash
    {
      this.i, this.hash, this.p, this.store, this.key := i, hash, p, store, key;
      this.parameter, this.secrets := r.parameter, r.secrets;
      this.nextLeaf, this.lastMessage, this.lastSalt, this.failed := r.nextLeaf, r.lastMessage, r.lastSalt, false;
    }

    /** A live signer's state is on file and consistent. */
    lemma ReadyFacts()
      requires Valid() && !failed
      ensures store.m.consistent(State()) && store.m.RecordOf(store.main) == Some(State())
      ensures nextLeaf <= store.m.leaves == i.Leaves()
      ensures lastMessage.Some? ==> nextLeaf > 0 && store.m.Signature(State()).Some?
    {
      store.Invariant();
      MachineSafety.ReadyFacts(store.m, store.system, p, State());
    }

    /** `remaining`: the subtraction never underflows. */
    method Remaining() returns (n: nat)
      requires Valid() && !failed
      ensures n + nextLeaf == i.Leaves()
    {
      ReadyFacts();
      n := i.Leaves() - nextLeaf;
    }

    /** The signature of the recorded message. */
    method Recorded() returns (sig: Bytes)
      requires Valid() && !failed && lastMessage.Some?
      ensures store.m.Signature(State()) == Some(sig)
    {
      ReadyFacts();
      var signed := SignRecorded(i, hash, key, State(), nextLeaf - 1, lastMessage.value, lastSalt);
      sig := signed.value;
    }

    /** A retry: the recorded signature again; the file and the state stay. */
    method Retry(message: Message, ghost source: Sampling.Source) returns (r: Result<Bytes, Sampling.SigningError>)
      requires Valid() && !failed && lastMessage == Some(message)
      modifies store
      ensures Valid() && store.main == old(store.main) && Continues(old(store.history), store.history, p)
      ensures r.Ok? && store.m.Signature(State()) == Some(r.value)
      ensures store.system.released == old(store.system.released) + store.m.ReleaseOf(State())
    {
      var sig := Recorded();
      store.HandOut(p, State(), message, source);
      r := Ok(sig);
    }

    /** Sample, then spend the leaf in memory: success or not, the next leaf moves on. */
    method Advance(message: Message, source: Sampling.Source)
      returns (sampled: Result<Salt, Sampling.SigningError>, requests: nat)
      requires store.m == For(i, hash) && nextLeaf < i.Leaves()
      modifies this
      ensures requests <= 4096 && failed == old(failed)
      ensures State() == store.m.Attempt(old(State()), message, source)
      ensures nextLeaf == old(nextLeaf) + 1
      ensures sampled == store.m.sample(old(State()), message, source)
      ensures Asks(store.m, hash, old(State()), message, source, requests)
      ensures match sampled
              case Ok(salt) => lastMessage == Some(message) && lastSalt == salt
              case Err(_) => lastMessage.None?
    {
      sampled, requests := SampleNext(i, hash, State(), message, source);
      nextLeaf := nextLeaf + 1;
      lastMessage := if sampled.Ok? then Some(message) else None;
      lastSalt := if sampled.Ok? then sampled.value else Zeros(SALT_LENGTH);
    }

    /** Spend the next leaf: in memory, then on file. */
    method Spend(message: Message, source: Sampling.Source)
      returns (sampled: Result<Salt, Sampling.SigningError>, requests: nat)
      requires Valid() && !failed && lastMessage != Some(message) && nextLeaf < i.Leaves()
      modifies this, store
      ensures Valid() && Continues(old(store.history), store.history, p)
      ensures requests <= 4096
      ensures State() == store.m.Attempt(old(State()), message, source) && nextLeaf == old(nextLeaf) + 1
      ensures sampled == store.m.sample(old(State()), message, source)
      ensures Asks(store.m, hash, old(State()), message, source, requests)
      ensures match sampled
              case Ok(salt) => lastMessage == Some(message) && lastSalt == salt
              case Err(_) => lastMessage.None?
      ensures store.main == Present(store.m.write(State())) || (failed && store.main == old(store.main))
      ensures !failed ==> store.system.Durable()
      ensures !failed <==> store.AllWork(old(store.ops), 4)
      ensures store.system.released == old(store.system.released) + if failed then {} else store.m.ReleaseOf(State())
    {
      ghost var before := State();
      sampled, requests := Advance(message, source);
      var ok := Persist(i, hash, store, p, before, message, source, State());
      failed := !ok;
    }

    /** An attempt under a fresh leaf: the leaf is spent whatever happens, the record is in place before
        anything is returned, and a signature is returned exactly when sampling and every file
        operation succeeded. */
    method Attempt(message: Message, source: Sampling.Source)
      returns (r: Result<Bytes, Sampling.SigningError>, requests: nat)
      requires Valid() && !failed && lastMessage != Some(message) && nextLeaf < i.Leaves()
      modifies this, store
      ensures Valid() && Continues(old(store.history), store.history, p)
      ensures requests <= 4096
      ensures State() == store.m.Attempt(old(State()), message, source)
      ensures Asks(store.m, hash, old(State()), message, source, requests)
      ensures store.main == Present(store.m.write(State())) || (failed && store.main == old(store.main))
      ensures !failed ==> store.system.Durable()
      ensures !failed <==> store.AllWork(old(store.ops), 4)
      ensures r.Ok? <==> !failed && lastMessage == Some(message)
      ensures r.Ok? <==> store.AllWork(old(store.ops), 4) && store.m.sample(old(State()), message, source).Ok?
      ensures r.Err? ==> if failed then r.error == Sampling.Io else store.m.sample(old(State()), message, source) == Err(r.error)
      ensures r.Ok? ==> store.m.Signature(State()) == Some(r.value)
      ensures store.system.released == old(store.system.released) + if r.Ok? then store.m.ReleaseOf(State()) else {}
    {
      var sampled;
      sampled, requests := Spend(message, source);
      if failed {
        return Err(Sampling.Io), requests;
      }
      if sampled.Err? {
        return Err(sampled.error), requests;
      }
      var sig := Recorded();
      return Ok(sig), requests;
    }

    /** `sign_with_rng`: a failed signer refuses; the recorded message is a retry; a spent key refuses
        everything else; any other message is an attempt under the next leaf. */
    method SignWithRng(message: Message, source: Sampling.Source)
      returns (r: Result<Bytes, Sampling.SigningError>, requests: nat)
      requires Valid()
      modifies this, store
      ensures Valid() && Continues(old(store.history), store.history, p)
      ensures requests <= 4096
      // no attempt: neither the source nor the state nor the file is touched
      ensures old(failed) || old(lastMessage) == Some(message) || old(nextLeaf) >= i.Leaves() ==>
                requests == 0 && State() == old(State()) && failed == old(failed) && store.main == old(store.main)
      ensures old(failed) ==> r == Err(Sampling.Unusable)
      ensures !old(failed) && old(lastMessage) == Some(message) ==>
                r.Ok? && store.m.Signature(old(State())) == Some(r.value)
      ensures !old(failed) && old(lastMessage) != Some(message) && old(nextLeaf) >= i.Leaves() ==> r == Err(Sampling.Exhausted)
      // an attempt: exactly one leaf, and the record before the signature
      ensures !old(failed) && old(lastMessage) != Some(message) && old(nextLeaf) < i.Leaves() ==>
                && State() == store.m.Attempt(old(State()), message, source)
                && Asks(store.m, hash, old(State()), message, source, requests)
                && (store.main == Present(store.m.write(State())) || (failed && store.main == old(store.main)))
                && (!failed ==> store.system.Durable())
                && (r.Ok? <==> !failed && lastMessage == Some(message))
                // nothing but the file system and the sampling can keep the signature back
                && (!failed <==> store.AllWork(old(store.ops), 4))
                && (r.Ok? <==> !failed && store.m.sample(old(State()), message, source).Ok?)
                && (r.Ok? ==> store.m.Signature(State()) == Some(r.value))
                && (r.Err? ==> if failed then r.error == Sampling.Io
                               else store.m.sample(old(State()), message, source) == Err(r.error))
      // what is handed out is in the machine's run, and nothing else is
      ensures store.system.released == old(store.system.released) + if r.Ok? then store.m.ReleaseOf(State()) else {}
    {
      if failed {
        return Err(Sampling.Unusable), 0;
      }
      if lastMessage == Some(message) {
        r := Retry(message, source);
        return r, 0;
      }
      if nextLeaf >= i.Leaves() {
        return Err(Sampling.Exhausted), 0;
      }
      r, requests := Attempt(message, source);
    }
  }

  /** Rebuild the key of a state and put a signer on it. */
  method Revive(i: Instance, hash: Hash, store: Store, p: nat, r: Record) returns (signer: SigningKey)
    requires store.Valid() && store.m == For(i, hash) && store.At(p, Live(r, Ready)) && |r.secrets| == i.SecretsLength()
    ensures fresh(signer) && signer.Valid() && signer.store == store && signer.p == p && !signer.failed && signer.State() == r
    ensures signer.i == i && signer.hash == hash
  {
    var key := Instances.FromSecrets(i, hash, r.secrets, r.parameter);
    signer := new SigningKey(i, hash, p, store, key.value, r);
  }

  /** `open`: hold the lock, read the record, check it, and restore exactly the state on file. Every
      error drops the lock. */
  method OpenKey(i: Instance, hash: Hash, store: Store, p: nat) returns (r: Result<SigningKey, Sampling.SigningError>)
    requires store.Valid() && store.m == For(i, hash) && p !in store.system.processes
    modifies store
    ensures store.Valid() && store.main == old(store.main) && Continues(old(store.history), store.history, p)
    ensures store.system.released == old(store.system.released)
    // the outcome is decided by the lock, one file operation, and the file
    ensures r.Ok? <==> old(store.holder).None? && store.AllWork(old(store.ops), 1) && store.m.RecordOf(store.main).Some?
    ensures r == Err(Sampling.Io) <==> old(store.holder).None? && !store.AllWork(old(store.ops), 1)
    ensures match r
            case Ok(signer) =>
              && fresh(signer) && signer.Valid() && signer.store == store && signer.p == p && !signer.failed
              && store.m.RecordOf(store.main) == Some(signer.State()) && store.holder == Some(p)
            case Err(error) =>
              && p !in store.system.processes && store.holder == old(store.holder)
              && match error
                 case Locked => old(store.holder).Some?
                 case Missing => store.main.Absent?
                 case Corrupt => store.main.Present? && Parse(i, hash, store.main.bytes).None?
                 case _ => error == Sampling.Io
    ensures old(store.holder).Some? ==> r == Err(Sampling.Locked)
  {
    ghost var history := store.history;
    var held := store.TryLock(p);
    if !held {
      return Err(Sampling.Locked);
    }
    ghost var locked := store.history;
    var readable := store.Operate();
    if !readable {
      store.Leave(p);
      ContinuesTransitive(history, locked, store.history, p);
      return Err(Sampling.Io);
    }
    var absent := store.main.Absent?;
    var record := store.ReadRecord(p);
    ContinuesTransitive(history, locked, store.history, p);
    if record.None? {
      return Err(if absent then Sampling.Missing else Sampling.Corrupt);
    }
    ParsePrints(i, hash, store.main.bytes);
    var signer := Revive(i, hash, store, p, record.value);
    return Ok(signer);
  }

  /** `create` after its file exists: write, sync, sync the directory. */
  method FinishCreate(i: Instance, hash: Hash, store: Store, p: nat, secrets: Bytes, parameter: Parameter)
    returns (r: Option<Record>)
    requires store.Valid() && store.m == For(i, hash) && store.At(p, CreatedFile) && |secrets| == i.SecretsLength()
    modifies store
    ensures store.Valid() && Continues(old(store.history), store.history, p)
    ensures store.system.released == old(store.system.released)
    ensures match r
            case Some(state) =>
              && state == Record(parameter, 0, None, Zeros(SALT_LENGTH), secrets)
              && store.At(p, Live(state, Ready)) && store.main == Present(store.m.write(state))
              && store.system.Durable()
            case None => p in store.system.processes
    ensures r.Some? <==> store.AllWork(old(store.ops), 3)
  {
    ghost var history := store.history;
    var state := Record(parameter, 0, None, Zeros(SALT_LENGTH), secrets);
    store.Sampled(p, secrets, parameter);
    ghost var sampled := store.history;
    store.WorkSplits(store.ops, 1, 2);
    var record := PrintRecord(i, hash, state);
    var ok := store.WriteNew(p, state, record);
    ContinuesTransitive(history, sampled, store.history, p);
    if !ok {
      return None;
    }
    ghost var written := store.history;
    ok := SyncCreated(store, p, state);
    ContinuesTransitive(history, written, store.history, p);
    return if ok then Some(state) else None;
  }

  /** The end of `create`: sync the file, and its directory. */
  method SyncCreated(store: Store, p: nat, ghost r: Record) returns (ok: bool)
    requires store.Valid() && store.At(p, RecordWritten(r))
    modifies store
    ensures store.Valid() && Continues(old(store.history), store.history, p)
    ensures store.main == old(store.main) && store.system.released == old(store.system.released)
    ensures if ok then store.At(p, Live(r, Ready)) && store.system.Durable() else p in store.system.processes
    ensures ok <==> store.AllWork(old(store.ops), 2)
  {
    ghost var before := store.history;
    store.WorkSplits(store.ops, 1, 1);
    ok := store.SyncNew(p, r);
    if ok {
      ghost var synced := store.history;
      ok := store.SyncNewDirectory(p, r);
      ContinuesTransitive(before, synced, store.history, p);
    }
  }

  /** `create` after its file exists, up to its result: a failure drops the lock and leaves the file. */
  method CreateRecord(i: Instance, hash: Hash, store: Store, p: nat, sampled: Option<(Bytes, Parameter)>)
    returns (r: Result<Record, Sampling.SigningError>)
    requires store.Valid() && store.m == For(i, hash) && store.At(p, CreatedFile)
    requires sampled.Some? ==> |sampled.value.0| == i.SecretsLength()
    modifies store
    ensures store.Valid() && Continues(old(store.history), store.history, p)
    ensures store.system.released == old(store.system.released)
    ensures match r
            case Ok(state) =>
              && sampled.Some? && state == Record(sampled.value.1, 0, None, Zeros(SALT_LENGTH), sampled.value.0)
              && store.At(p, Live(state, Ready)) && store.main == Present(store.m.write(state))
              && store.system.Durable() && store.holder == Some(p)
            case Err(error) =>
              && p !in store.system.processes && store.holder.None?
              && if sampled.None? then error == Sampling.Random && store.main == old(store.main) else error == Sampling.Io
    ensures r.Ok? <==> sampled.Some? && store.AllWork(old(store.ops), 3)
  {
    ghost var made := store.history;
    if sampled.None? {
      store.Leave(p);
      return Err(Sampling.Random);
    }
    var state := FinishCreate(i, hash, store, p, sampled.value.0, sampled.value.1);
    if state.Some? {
      store.Invariant();
      return Ok(state.value);
    }
    ghost var stuck := store.history;
    store.Leave(p);
    ContinuesTransitive(made, stuck, store.history, p);
    return Err(Sampling.Io);
  }

  /** The start of `create`: hold the lock on a new, empty key file. */
  method NewKeyFile(store: Store, p: nat) returns (refused: Option<Sampling.SigningError>)
    requires store.Valid() && p !in store.system.processes
    modifies store
    ensures store.Valid() && Continues(old(store.history), store.history, p)
    ensures match refused
            case None =>
              old(store.holder).None? && old(store.main).Absent? && store.main == Present([]) && store.At(p, CreatedFile)
            case Some(error) =>
              && p !in store.system.processes && store.holder == old(store.holder) && store.main == old(store.main)
              && match error
                 case Locked => old(store.holder).Some?
                 case Exists => old(store.holder).None? && old(store.main).Present?
                 case _ => error == Sampling.Io && old(store.holder).None?
    ensures old(store.holder).None? ==> store.ops == old(store.ops) + 1
    ensures refused.None? <==> old(store.holder).None? && store.AllWork(old(store.ops), 1) && old(store.main).Absent?
    ensures refused == Some(Sampling.Io) <==> old(store.holder).None? && !store.AllWork(old(store.ops), 1)
    ensures store.system.released == old(store.system.released)
  {
    ghost var history := store.history;
    var held := store.TryLock(p);
    if !held {
      return Some(Sampling.Locked);
    }
    ghost var locked := store.history;
    var reachable := store.Operate();
    if !reachable {
      store.Leave(p);
      ContinuesTransitive(history, locked, store.history, p);
      return Some(Sampling.Io);
    }
    var created := store.NewFile(p);
    ContinuesTransitive(history, locked, store.history, p);
    return if created then None else Some(Sampling.Exists);
  }

  /** `create`: refuses an existing file; on success a blank record of the sampled key is durable. The
      random source's answer is a parameter. A failure may leave an empty or partial file behind. */
  method CreateKey(i: Instance, hash: Hash, store: Store, p: nat, sampled: Option<(Bytes, Parameter)>)
    returns (r: Result<SigningKey, Sampling.SigningError>)
    requires store.Valid() && store.m == For(i, hash) && p !in store.system.processes
    requires sampled.Some? ==> |sampled.value.0| == i.SecretsLength()
    modifies store
    ensures store.Valid() && Continues(old(store.history), store.history, p)
    ensures match r
            case Ok(signer) =>
              && fresh(signer) && signer.Valid() && signer.store == store && signer.p == p && !signer.failed
              && old(store.main).Absent? && sampled.Some?
              && signer.State() == Record(sampled.value.1, 0, None, Zeros(SALT_LENGTH), sampled.value.0)
              && store.main == Present(store.m.write(signer.State())) && store.system.Durable() && store.holder == Some(p)
            case Err(error) =>
              && p !in store.system.processes && store.holder == old(store.holder)
              && match error
                 case Locked => old(store.holder).Some? && store.main == old(store.main)
                 case Exists => old(store.main).Present? && store.main == old(store.main)
                 case Random => sampled.None? && old(store.main).Absent? && store.main == Present([])
                 case _ => error == Sampling.Io
    ensures old(store.holder).Some? ==> r == Err(Sampling.Locked)
    ensures old(store.holder).None? && old(store.main).Present? ==> r == Err(Sampling.Exists) || r == Err(Sampling.Io)
    ensures store.system.released == old(store.system.released)
    // the outcome is decided by the lock, the file, the random source, and four file operations
    ensures r.Ok? <==>
              && old(store.holder).None? && old(store.main).Absent? && sampled.Some?
              && store.AllWork(old(store.ops), 4)
    ensures old(store.holder).None? && store.AllWork(old(store.ops), 4) ==> r != Err(Sampling.Io)
  {
    ghost var history := store.history;
    store.WorkSplits(store.ops, 1, 3);
    var refused := NewKeyFile(store, p);
    if refused.Some? {
      return Err(refused.value);
    }
    ghost var made := store.history;
    var state := CreateRecord(i, hash, store, p, sampled);
    ContinuesTransitive(history, made, store.history, p);
    if state.Err? {
      return Err(state.error);
    }
    var signer := Revive(i, hash, store, p, state.value);
    return Ok(signer);
  }

  /** `require_next_leaf_at_least`: keep the signer, or drop it with its lock. */
  method RequireNextLeafAtLeast(signer: SigningKey, minimum: u32) returns (r: Result<SigningKey, Sampling.SigningError>)
    requires signer.Valid()
    modifies signer.store
    ensures signer.nextLeaf >= minimum ==>
              r == Ok(signer) && signer.Valid() && signer.store.main == old(signer.store.main)
              && signer.store.holder == old(signer.store.holder)
    ensures signer.nextLeaf < minimum ==>
              && r == Err(Sampling.LeafBelowMinimum(signer.nextLeaf, minimum))
              && signer.store.Valid() && signer.store.holder.None? && signer.store.main == old(signer.store.main)
    ensures Continues(old(signer.store.history), signer.store.history, signer.p)
  {
    if signer.nextLeaf < minimum {
      signer.store.Leave(signer.p);
      return Err(Sampling.LeafBelowMinimum(signer.nextLeaf, minimum));
    }
    return Ok(signer);
  }
}
