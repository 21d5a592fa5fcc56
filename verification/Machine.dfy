/**
 The signer over its key file as a state machine: any number of processes contend for the sidecar
 lock, create, open, sign, retry, fail, crash and reopen, and power may fail at any moment.

 A file operation is one event, so a crash may fall between any two of them. A failed or partial
 operation is the event not happening, or happening, followed by `Fail`. `Sync` is not the signer's:
 anyone may sync the key file and its directory, and an operating system does so unasked.
 */
module Machine {
  import opened Bytes
  import opened TweakHash
  import opened Instances
  import opened Records
  import Keys
  import Sampling

  datatype File = Absent | Present(bytes: Bytes)

  /** Where a live signer stands between and during calls. */
  datatype Phase =
    | Ready        // between calls
    | Attempted    // next leaf, message and salt replaced in memory; nothing written
    | TmpWritten   // the record is in the temporary file
    | TmpSynced
    | Renamed      // the record is the key file
    | Persisted    // the directory entry is synced; nothing released yet
    | Unusable     // a write failed

  datatype Process =
    | Starting                     // holds the lock; has neither created nor read the file
    | CreatedFile                  // created the key file, still empty
    | Sampled(state: Record)       // has its chain starts and parameter
    | RecordWritten(state: Record)
    | RecordSynced(state: Record)
    | Live(state: Record, phase: Phase)
  {
    predicate In(phase: Phase) {
      Live? && this.phase == phase
    }
  }

  /** A signature handed to a caller. */
  datatype Release = Release(leaf: u32, message: Message, salt: Salt, signature: Bytes)

  datatype System = System(
    // What the path may name after a power failure, oldest first; the last is what it names now.
    log: seq<File>,
    // The key file's content may still be lost: what `create` wrote is not synced.
    dirty: bool,
    tmp: File,
    lock: Option<nat>,
    processes: map<nat, Process>,
    released: set<Release>,
    // Specification only: has a record been read with a message in it, or found or made durable, and
    // the `log` index of the last such record.
    anchored: bool,
    floor: nat)
  {
    function Current(): File
      requires |log| > 0
    {
      log[|log| - 1]
    }

    function With(p: nat, process: Process): System {
      this.(processes := processes[p := process])
    }

    /** Nothing older than the current key file can come back. */
    predicate Durable() {
      |log| == 1 && !dirty
    }

    /** The key file and its directory are synced. */
    function Synced(): System
      requires |log| > 0
    {
      this.(log := [Current()], dirty := false, floor := 0)
    }

    /** A process has read a record. A record without a message releases nothing, so reading it binds
        nobody, unless it is durable anyway. */
    function Opened(p: nat, r: Record): (s: System)
      requires |log| > 0
      ensures s == With(p, Live(r, Ready)).(anchored := s.anchored, floor := s.floor)
    {
      var live := With(p, Live(r, Ready));
      if r.lastMessage.Some? || Durable() then live.(anchored := true, floor := |log| - 1) else live
    }

    /** The process is gone, and with it its lock. */
    function Without(p: nat): System {
      this.(processes := processes - {p}, lock := if lock == Some(p) then None else lock)
    }
  }

  datatype Event =
    | Lock(p: nat)
    | CreateFile(p: nat)
    | CreateSample(p: nat, secrets: Bytes, parameter: Parameter)
    | CreateWrite(p: nat, n: nat)
    | CreateSync(p: nat)
    | CreateSyncDir(p: nat)
    | Open(p: nat)
    | Sign(p: nat, message: Message, source: Sampling.Source)
    | WriteTmp(p: nat, n: nat)
    | SyncTmp(p: nat)
    | Rename(p: nat)
    | SyncDir(p: nat)
    | Fail(p: nat)
    | Return(p: nat)
    | Require(p: nat, minimum: u32)
    | Exit(p: nat)                  // drop, error return, or a crash of the process
    | Sync(p: nat)                  // somebody syncs the key file and its directory
    | PowerLoss(main: File, tmp: File)

  /** The operations of an instance that the protocol uses. `For` gives the real ones. */
  datatype Machine = Machine(
    leaves: u32,
    // the record codec: `write_record` and the checks of `open`
    write: Record -> Bytes,
    restore: Bytes -> Option<Record>,
    // the states a signer can be in
    consistent: Record -> bool,
    // chain starts of the right length
    wellKeyed: Bytes -> bool,
    // `sample_salt` at the next leaf of a state
    sample: (Record, Message, Sampling.Source) -> Result<Salt, Sampling.SigningError>,
    // `sign_at_with_salt`, over chain starts and parameter
    sign: (Bytes, Parameter, u32, Message, Salt) -> Option<Bytes>)
  {
    /** What the protocol relies on. */
    ghost predicate Lawful() {
      && (forall r :: consistent(r) ==> restore(write(r)) == Some(r))
      && (forall b :: restore(b).Some? ==> consistent(restore(b).value))
      && (forall r :: consistent(r) ==> r.nextLeaf <= leaves)
      && (forall r :: consistent(r) && r.lastMessage.Some? ==> r.nextLeaf > 0 && Signature(r).Some?)
      && (forall r, message, source :: consistent(r) && r.nextLeaf < leaves ==> consistent(Attempt(r, message, source)))
      && (forall secrets, parameter :: wellKeyed(secrets) ==> consistent(Fresh(secrets, parameter)))
      && restore([]).None?
      && (forall r, n :: consistent(r) && 0 <= n < |write(r)| ==> restore(write(r)[..n]).None?)
    }

    function Initial(file: File): System {
      System([file], false, Absent, None, map[], {}, false, 0)
    }

    function Fresh(secrets: Bytes, parameter: Parameter): Record {
      Record(parameter, 0, None, Zeros(SALT_LENGTH), secrets)
    }

    /** The state after `sign_with_rng` has sampled: the leaf is spent whether or not sampling succeeded. */
    function Attempt(r: Record, message: Message, source: Sampling.Source): Record
      requires r.nextLeaf < leaves
    {
      match sample(r, message, source)
      case Ok(salt) => Record(r.parameter, r.nextLeaf + 1, Some(message), salt, r.secrets)
      case Err(_) => Record(r.parameter, r.nextLeaf + 1, None, Zeros(SALT_LENGTH), r.secrets)
    }

    /** The signature of the recorded message. */
    function Signature(r: Record): Option<Bytes> {
      if r.lastMessage.Some? && r.nextLeaf > 0
      then sign(r.secrets, r.parameter, r.nextLeaf - 1, r.lastMessage.value, r.lastSalt)
      else None
    }

    /** What a live signer hands out for its recorded message. */
    function ReleaseOf(r: Record): set<Release> {
      if Signature(r).Some?
      then {Release(r.nextLeaf - 1, r.lastMessage.value, r.lastSalt, Signature(r).value)}
      else {}
    }

    function Step(s: System, e: Event): System
      requires |s.log| > 0
    {
      match e
      case PowerLoss(main, tmp) =>
        if main in s.log || s.dirty
        then System([main], false, tmp, None, map[], s.released, s.anchored, 0)
        else s
      case Lock(p) =>
        if s.lock.None? && p !in s.processes then s.With(p, Starting).(lock := Some(p)) else s
      case Sync(_) => s.Synced()
      case _ =>
        if e.p in s.processes then ProcessStep(s, e, s.processes[e.p]) else s
    }

    /** What `open` makes of a file. */
    function RecordOf(file: File): Option<Record> {
      if file.Present? then restore(file.bytes) else None
    }

    /** A process that is not where an event belongs does nothing. */
    function ProcessStep(s: System, e: Event, process: Process): System
      requires |s.log| > 0 && !e.PowerLoss?
    {
      match e
      // creation
      case CreateFile(p) =>
        if !process.Starting? then s
        else if s.Current().Absent? then s.With(p, CreatedFile).(log := s.log + [Present([])], dirty := true)
        else s.Without(p)
      case CreateSample(p, secrets, parameter) =>
        if process.CreatedFile? && wellKeyed(secrets) then s.With(p, Sampled(Fresh(secrets, parameter))) else s
      case CreateWrite(p, n) =>
        if !process.Sampled? then s
        else
          var record := write(process.state);
          if n < |record| then s.(log := s.log + [Present(record[..n])], dirty := true)
          else s.With(p, RecordWritten(process.state)).(log := s.log + [Present(record)], dirty := true)
      case CreateSync(p) =>
        if process.RecordWritten? then s.With(p, RecordSynced(process.state)).(dirty := false) else s
      case CreateSyncDir(p) =>
        if process.RecordSynced? then s.With(p, Live(process.state, Ready)).Synced().(anchored := true) else s
      // opening
      case Open(p) =>
        if !process.Starting? then s
        else
          var r := RecordOf(s.Current());
          if r.Some? then s.Opened(p, r.value) else s.Without(p)
      case Require(p, minimum) =>
        if process.In(Ready) && process.state.nextLeaf < minimum then s.Without(p) else s
      // signing
      case Sign(p, message, source) =>
        if !process.In(Ready) then s
        else
          var r := process.state;
          if r.lastMessage == Some(message) then s.(released := s.released + ReleaseOf(r))
          else if r.nextLeaf >= leaves then s
          else s.With(p, Live(Attempt(r, message, source), Attempted))
      case WriteTmp(p, n) =>
        if !process.In(Attempted) then s
        else
          var record := write(process.state);
          if n < |record| then s.(tmp := Present(record[..n]))
          else s.With(p, Live(process.state, TmpWritten)).(tmp := Present(record))
      case SyncTmp(p) =>
        if process.In(TmpWritten) then s.With(p, Live(process.state, TmpSynced)) else s
      case Rename(p) =>
        if process.In(TmpSynced) then s.With(p, Live(process.state, Renamed)).(log := s.log + [s.tmp], tmp := Absent) else s
      case SyncDir(p) =>
        if process.In(Renamed) then s.With(p, Live(process.state, Persisted)).Synced().(anchored := true) else s
      case Return(p) =>
        if process.In(Persisted)
        then s.With(p, Live(process.state, Ready)).(released := s.released + ReleaseOf(process.state))
        else s
      case Fail(p) =>
        if process.Live? && !process.phase.Ready? && !process.phase.Unusable?
        then s.With(p, Live(process.state, Unusable))
        else s
      // leaving
      case Exit(p) => s.Without(p)
      // not a step of the process
      case _ => s
    }

    function Run(s: System, events: seq<Event>): (r: System)
      requires |s.log| > 0
      ensures |r.log| > 0
      decreases |events|
    {
      if |events| == 0 then s else Run(Step(s, events[0]), events[1..])
    }

    /** The assumption on storage: a power failure never undoes a record that a signer has read with a
        message in it, or a durable one. */
    predicate KeepsOpened(s: System, e: Event)
      requires s.floor <= |s.log|
    {
      e.PowerLoss? && (e.main in s.log || s.dirty) && s.anchored ==> e.main in s.log[s.floor..]
    }

    ghost predicate RunKeepsOpened(s: System, events: seq<Event>)
      requires |s.log| > 0
      decreases |events|
    {
      |events| > 0 ==>
        && s.floor <= |s.log| && KeepsOpened(s, events[0])
        && RunKeepsOpened(Step(s, events[0]), events[1..])
    }

    // ----- the invariant -----

    /** Same key, one more leaf spent. */
    ghost predicate Follows(r: Record, next: Record) {
      SameKey(r, next) && next.nextLeaf == r.nextLeaf + 1
    }

    ghost predicate SameKey(r: Record, r': Record) {
      r.secrets == r'.secrets && r.parameter == r'.parameter
    }

    /** What a signature handed out earlier says about a record on file. */
    ghost predicate Accounts(r: Record, x: Release)
    {
      && consistent(r)
      && x.leaf < r.nextLeaf
      && (x.leaf + 1 == r.nextLeaf ==> r.lastMessage == Some(x.message) && r.lastSalt == x.salt)
      && sign(r.secrets, r.parameter, x.leaf, x.message, x.salt) == Some(x.signature)
    }

    /** A record on file accounts for every signature handed out. */
    ghost predicate OnFile(s: System, file: File) {
      && RecordOf(file).Some?
      && forall x :: x in s.released ==> Accounts(RecordOf(file).value, x)
    }

    /** Both files are records of one key, `n` leaves apart. */
    ghost predicate Further(a: File, b: File, n: nat) {
      && RecordOf(a).Some? && RecordOf(b).Some?
      && SameKey(RecordOf(a).value, RecordOf(b).value)
      && RecordOf(b).value.nextLeaf == RecordOf(a).value.nextLeaf + n
    }

    ghost predicate ProcessInv(s: System, process: Process)
      requires |s.log| > 0
    {
      match process
      case Starting => true
      case CreatedFile => !s.anchored
      case Sampled(r) => !s.anchored && consistent(r) && r.lastMessage.None?
      case RecordWritten(r) => !s.anchored && consistent(r) && s.Current() == Present(write(r))
      case RecordSynced(r) => !s.anchored && consistent(r) && s.Current() == Present(write(r)) && !s.dirty
      case Live(r, phase) =>
        && consistent(r) && RecordOf(s.Current()).Some?
        && var current := RecordOf(s.Current()).value;
           match phase
           case Ready => current == r && (r.lastMessage.Some? ==> s.anchored && s.floor == |s.log| - 1)
           case Attempted => Follows(current, r)
           case TmpWritten => Follows(current, r) && s.tmp == Present(write(r))
           case TmpSynced => Follows(current, r) && s.tmp == Present(write(r))
           case Renamed => current == r
           case Persisted => current == r && s.anchored && |s.log| == 1 && s.floor == 0
           case Unusable => true
    }

    ghost predicate Inv(s: System) {
      && s.floor < |s.log|
      // mutual exclusion, and a lock is held by a process
      && (forall p :: p in s.processes ==> s.lock == Some(p))
      && (s.lock.Some? ==> s.lock.value in s.processes)
      && (forall p :: p in s.processes ==> ProcessInv(s, s.processes[p]))
      // before any record was so bound nothing was released
      && (!s.anchored ==> s.released == {})
      // every record that may survive accounts for every release
      && (s.anchored ==> forall k :: s.floor <= k < |s.log| ==> OnFile(s, s.log[k]))
      // those records are one key's, each one leaf further than the one before
      && (s.anchored ==> forall j, k :: s.floor <= j <= k < |s.log| ==> Further(s.log[j], s.log[k], k - j))
      // one message and one signature per leaf
      && (forall x, y :: x in s.released && y in s.released && x.leaf == y.leaf ==> x == y)
    }
  }

  /** The machine of an instance under a hash. */
  function For(i: Instance, hash: Hash): Machine {
    Machine(
      i.Leaves(),
      r => Print(i, r),
      b => Parse(i, hash, b),
      (r: Record) => r.Consistent(i, hash),
      (secrets: Bytes) => |secrets| == i.SecretsLength(),
      (r: Record, message: Message, source: Sampling.Source) =>
        Sampling.Sample(TweakHash(hash, r.parameter), r.nextLeaf, message, source),
      (secrets: Bytes, parameter: Parameter, leaf: u32, message: Message, salt: Salt) =>
        if |secrets| == i.SecretsLength()
        then i.Sign(Keys.Key(TweakHash(hash, parameter), i.Height(), secrets), leaf, message, salt)
        else None)
  }

  lemma AttemptConsistent(i: Instance, hash: Hash, r: Record, message: Message, source: Sampling.Source)
    requires r.Consistent(i, hash) && r.nextLeaf < i.Leaves()
    ensures For(i, hash).Attempt(r, message, source).Consistent(i, hash)
  {
    var t := TweakHash(hash, r.parameter);
    if Sampling.Sample(t, r.nextLeaf, message, source).Ok? {
      Sampling.SampleAccepts(t, r.nextLeaf, message, source, 0);
    }
  }

  /** A record cut short is refused. */
  lemma PrefixRefused(i: Instance, hash: Hash, r: Record, n: nat)
    requires r.Consistent(i, hash) && n < |Print(i, r)|
    ensures Parse(i, hash, Print(i, r)[..n]).None?
  {
  }

  /** The codec restores what is written, refuses less, and yields consistent states only. */
  lemma CodecLawful(i: Instance, hash: Hash)
    ensures var m := For(i, hash);
            && (forall r :: m.consistent(r) ==> m.restore(m.write(r)) == Some(r))
            && (forall b :: m.restore(b).Some? ==> m.consistent(m.restore(b).value))
            && m.restore([]).None?
            && (forall r, n :: m.consistent(r) && 0 <= n < |m.write(r)| ==> m.restore(m.write(r)[..n]).None?)
  {
    var m := For(i, hash);
    forall r | m.consistent(r)
      ensures m.restore(m.write(r)) == Some(r)
    {
      PrintParses(i, hash, r);
    }
    forall b | m.restore(b).Some?
      ensures m.consistent(m.restore(b).value)
    {
      ParsePrints(i, hash, b);
    }
    forall r, n | m.consistent(r) && 0 <= n < |m.write(r)|
      ensures m.restore(m.write(r)[..n]).None?
    {
      PrefixRefused(i, hash, r, n);
    }
  }

  /** Every state with a message has its signature, and every attempt leaves such a state. */
  lemma SigningLawful(i: Instance, hash: Hash)
    ensures var m := For(i, hash);
            && (forall r :: m.consistent(r) && r.lastMessage.Some? ==> r.nextLeaf > 0 && m.Signature(r).Some?)
            && (forall r, message, source :: m.consistent(r) && r.nextLeaf < m.leaves ==>
                  m.consistent(m.Attempt(r, message, source)))
  {
    var m := For(i, hash);
    forall r | m.consistent(r) && r.lastMessage.Some?
      ensures r.nextLeaf > 0 && m.Signature(r).Some?
    {
      SignsExactly(i, r.Key(i, hash), r.nextLeaf - 1, r.lastMessage.value, r.lastSalt);
    }
    forall r, message, source | m.consistent(r) && r.nextLeaf < m.leaves
      ensures m.consistent(m.Attempt(r, message, source))
    {
      AttemptConsistent(i, hash, r, message, source);
    }
  }

  /** The real operations are lawful. */
  lemma ForLawful(i: Instance, hash: Hash)
    ensures For(i, hash).Lawful()
  {
    CodecLawful(i, hash);
    SigningLawful(i, hash);
  }
}
