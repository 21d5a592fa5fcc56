/**
 The TypeScript `SigningKey`: the same files and protocol, with a synchronous random-source callback
 that may call back into the signer or overwrite the caller's message.
 */
module TypeScriptSigner {
  import opened Bytes
  import opened TweakHash
  import opened Instances
  import opened Records
  import opened Machine
  import MachineSafety
  import Sampling
  import Signer
  import TypeScriptKeys

  /** What the callback does before it returns. */
  datatype Action =
    | CallSign
    | CallClose
    | CallRequire(minimum: int)
    | Overwrite(bytes: Bytes)

  /** One call of the source: what it does on the side, and whether it fills the buffer or throws. */
  datatype Fill = Fill(actions: seq<Action>, outcome: Result<Salt, Sampling.SigningError>)

  type Callback = nat -> Fill

  datatype Failure = InvalidLength | InvalidEncoding | Signing(error: Sampling.SigningError)

  /** The callback as a plain source of salts. */
  function AsSource(fill: Callback): Sampling.Source {
    (k: nat) => fill(k).outcome
  }

  /** The recorded signature, by this package's own key. */
  method SignRecorded(i: Instance, ghost hash: Hash, key: TypeScriptKeys.SecretKey, ghost r: Record, leaf: u32, message: Message, salt: Salt)
    returns (sig: Bytes)
    requires key.Valid() && key.Kind() == i && key.Key() == r.Key(i, hash)
    requires r.nextLeaf == leaf + 1 && r.lastMessage == Some(message) && r.lastSalt == salt
    requires For(i, hash).Signature(r).Some?
    ensures For(i, hash).Signature(r) == Some(sig)
  {
    SignsExactly(i, key.Key(), leaf, message, salt);
    var signed := TypeScriptKeys.SignAtWithSalt(key, leaf, message, salt);
    sig := signed.value;
  }

  /** Put an attempt on file, or release the lock. */
  method PersistOrLeave(i: Instance, ghost hash: Hash, store: Signer.Store, p: nat, ghost before: Record,
                        ghost message: Message, ghost source: Sampling.Source, r: Record)
    returns (ok: bool)
    requires store.Valid() && store.m == For(i, hash) && store.At(p, Live(before, Ready))
    requires before.lastMessage != Some(message) && before.nextLeaf < store.m.leaves
    requires r == store.m.Attempt(before, message, source)
    modifies store
    ensures store.Valid() && Signer.Continues(old(store.history), store.history, p)
    ensures if ok then store.At(p, Live(r, Ready)) && store.system.Durable()
            else p !in store.system.processes && store.holder.None?
    ensures store.main == Present(store.m.write(r)) || (!ok && store.main == old(store.main))
    ensures ok <==> store.AllWork(old(store.ops), 4)
    ensures store.system.released == old(store.system.released) + if ok then store.m.ReleaseOf(r) else {}
  {
    ghost var history := store.history;
    ok := Signer.Persist(i, hash, store, p, before, message, source, r);
    if !ok {
      ghost var failed := store.history;
      store.Leave(p);
      Signer.ContinuesTransitive(history, failed, store.history, p);
    }
  }

  class SigningKey {
    const i: Instance
    const hash: Hash
    const p: nat
    const store: Signer.Store
    const key: TypeScriptKeys.SecretKey
    var nextLeaf: u32
    var lastMessage: Option<Message>
    var lastSalt: Salt
    var closed: bool
    var sampling: bool

    function State(): Record
      reads this
    {
      Record(key.t.parameter, nextLeaf, lastMessage, lastSalt, key.secrets)
    }

    /** An open signer holds the lock on the state on file; a closed one is gone. */
    ghost predicate Coupled()
      reads this, store
    {
      && store.Valid() && store.m == For(i, hash)
      && key.Valid() && key.Kind() == i && key.t.hash == hash
      && if closed then p !in store.system.processes else store.At(p, Live(State(), Ready))
    }

    ghost predicate Valid()
      reads this, store
    {
      Coupled() && !sampling
    }

    constructor (i: Instance, hash: Hash, p: nat, store: Signer.Store, key: TypeScriptKeys.SecretKey, r: Record)
      requires store.Valid() && store.m == For(i, hash) && store.At(p, Live(r, Ready))
      requires key.Valid() && key.Kind() == i && key.Key() == r.Key(i, hash)
      ensures Valid() && State() == r && !closed
      ensures this.store == store && this.p == p && this.i == i && this.hash == hash
    {
      this.i, this.hash, this.p, this.store, this.key := i, hash, p, store, key;
      this.nextLeaf, this.lastMessage, this.lastSalt := r.nextLeaf, r.lastMessage, r.lastSalt;
      this.closed, this.sampling := false, false;
    }

    lemma ReadyFacts()
      requires Coupled() && !closed
      ensures store.m.consistent(State()) && nextLeaf <= store.m.leaves == i.Leaves()
      ensures lastMessage.Some? ==> nextLeaf > 0 && store.m.Signature(State()).Some?
    {
      store.Invariant();
      MachineSafety.ReadyFacts(store.m, store.system, p, State());
    }

    /** The two checks at the top of `signWithRng`. */
    method Enter() returns (r: Option<Sampling.SigningError>)
      ensures r == if closed || sampling then Some(Sampling.Unusable) else None
    {
      if closed {
        return Some(Sampling.Unusable);
      }
      if sampling {
        return Some(Sampling.Unusable);
      }
      return None;
    }

    /** `close`: refuses during an attempt; otherwise releases the lock, once. */
    method Close() returns (r: Option<Sampling.SigningError>)
      requires Coupled()
      modifies this`closed, store
      ensures Coupled() && store.main == old(store.main)
      ensures Signer.Continues(old(store.history), store.history, p)
      ensures sampling ==> r == Some(Sampling.Unusable) && closed == old(closed) && store.history == old(store.history) && store.ops == old(store.ops)
      ensures !sampling ==> r.None? && closed
      ensures if old(closed) || sampling then store.holder == old(store.holder) else store.holder.None?
      ensures store.system.released == old(store.system.released)
    {
      if sampling {
        return Some(Sampling.Unusable);
      }
      if closed {
        return None;
      }
      closed := true;
      store.Leave(p);
      return None;
    }

    /** `requireNextLeafAtLeast`: closes on an invalid minimum or a state behind it, and says which it
        was, unless closing is itself refused because of an attempt. */
    method RequireNextLeafAtLeast(minimum: int) returns (r: Option<Failure>)
      requires Coupled()
      modifies this`closed, store
      ensures Coupled() && store.main == old(store.main)
      ensures Signer.Continues(old(store.history), store.history, p)
      ensures r == if 0 <= minimum <= i.Leaves() && minimum <= nextLeaf then None
                   else if sampling then Some(Signing(Sampling.Unusable))
                   else if 0 <= minimum <= i.Leaves() then Some(Signing(Sampling.LeafBelowMinimum(nextLeaf, minimum)))
                   else Some(InvalidEncoding)
      ensures sampling || r.None? ==>
                closed == old(closed) && store.history == old(store.history) && store.ops == old(store.ops) && store.holder == old(store.holder)
      ensures !sampling && r.Some? ==> closed && (!old(closed) ==> store.holder.None?)
      ensures store.system.released == old(store.system.released)
    {
      var invalid := minimum < 0 || minimum > i.Leaves();
      if !invalid && nextLeaf >= minimum {
        return None;
      }
      var refused := Close();
      if refused.Some? {
        return Some(Signing(refused.value));
      }
      return Some(if invalid then InvalidEncoding else Signing(Sampling.LeafBelowMinimum(nextLeaf, minimum)));
    }

    /** Run what the callback does on the side. During an attempt none of it gets through to the signer. */
    method Perform(actions: seq<Action>, message: array<byte>)
      requires Coupled() && sampling && !closed
      modifies this`closed, store, message
      ensures Coupled() && !closed
      ensures store.main == old(store.main) && store.history == old(store.history) && store.ops == old(store.ops) && store.holder == old(store.holder)
    {
      for k := 0 to |actions|
        invariant Coupled() && !closed && store.main == old(store.main) && store.history == old(store.history) && store.ops == old(store.ops)
      {
        match actions[k]
        case CallSign =>
          var refused := Enter();
          assert refused == Some(Sampling.Unusable);
        case CallClose =>
          var _ := Close();
        case CallRequire(minimum) =>
          var _ := RequireNextLeafAtLeast(minimum);
        case Overwrite(bytes) =>
          if |bytes| <= message.Length {
            CopyAt(message, 0, bytes);
          }
      }
    }

    /** `sampleSalt` around the callback: the lock is held and the state is untouched throughout. */
    method SampleSalt(parameter: Parameter, digest: Message, message: array<byte>, fill: Callback)
      returns (r: Result<Salt, Sampling.SigningError>, requests: nat)
      requires Coupled() && sampling && !closed && parameter == key.t.parameter
      modifies this`closed, store, message
      ensures Coupled() && !closed
      ensures store.main == old(store.main) && store.history == old(store.history) && store.ops == old(store.ops) && store.holder == old(store.holder)
      ensures requests <= 4096
      ensures Sampling.SampledIn(TweakHash(hash, parameter), nextLeaf, digest, AsSource(fill), r, requests)
    {
      var t := TweakHash(hash, parameter);
      ghost var source := AsSource(fill);
      requests := 0;
      while requests < Sampling.MAX_TRIALS
        invariant Coupled() && !closed && store.main == old(store.main) && store.history == old(store.history) && store.ops == old(store.ops)
        invariant requests <= Sampling.MAX_TRIALS
        invariant forall k :: 0 <= k < requests ==> Sampling.Rejected(t, nextLeaf, digest, source, k)
      {
        var call := fill(requests);
        Perform(call.actions, message);
        requests := requests + 1;
        if call.outcome.Err? {
          return call.outcome, requests;
        }
        var x := t.Encode(call.outcome.value, nextLeaf, digest);
        if x.Some? {
          return call.outcome, requests;
        }
      }
      return Err(Sampling.SaltsExhausted), requests;
    }

    /** Sample with the flag set; it is cleared whatever happens. */
    method SampleGuarded(digest: Message, message: array<byte>, fill: Callback)
      returns (r: Result<Salt, Sampling.SigningError>, requests: nat)
      requires Valid() && !closed
      modifies this`closed, this`sampling, store, message
      ensures Valid() && !closed
      ensures store.main == old(store.main) && store.history == old(store.history) && store.ops == old(store.ops)
      ensures requests <= 4096
      ensures r == store.m.sample(State(), digest, AsSource(fill))
      ensures Signer.Asks(store.m, hash, State(), digest, AsSource(fill), requests)
    {
      sampling := true;
      var parameter := TypeScriptKeys.ParameterOf(key);
      r, requests := SampleSalt(parameter, digest, message, fill);
      Sampling.SampledIs(TweakHash(hash, parameter), nextLeaf, digest, AsSource(fill), r, requests);
      sampling := false;
    }

    /** The next leaf moves on; the message and salt are kept only if sampling succeeded. */
    method Remember(digest: Message, sampled: Result<Salt, Sampling.SigningError>)
      requires nextLeaf < i.Leaves()
      modifies this`nextLeaf, this`lastMessage, this`lastSalt
      ensures State() == match sampled
                         case Ok(salt) => Record(key.t.parameter, old(nextLeaf) + 1, Some(digest), salt, key.secrets)
                         case Err(_) => Record(key.t.parameter, old(nextLeaf) + 1, None, Zeros(SALT_LENGTH), key.secrets)
    {
      nextLeaf := nextLeaf + 1;
      lastMessage := if sampled.Ok? then Some(digest) else None;
      lastSalt := if sampled.Ok? then sampled.value else Zeros(SALT_LENGTH);
    }

    /** Sample, then spend the leaf in memory. */
    method Advance(digest: Message, message: array<byte>, fill: Callback)
      returns (sampled: Result<Salt, Sampling.SigningError>, requests: nat)
      requires Valid() && !closed && nextLeaf < i.Leaves()
      modifies this, store, message
      ensures !closed && !sampling && store.Valid() && store.history == old(store.history) && store.ops == old(store.ops) && store.main == old(store.main)
      ensures requests <= 4096
      ensures State() == store.m.Attempt(old(State()), digest, AsSource(fill)) && nextLeaf == old(nextLeaf) + 1
      ensures sampled == store.m.sample(old(State()), digest, AsSource(fill))
      ensures Signer.Asks(store.m, hash, old(State()), digest, AsSource(fill), requests)
      ensures match sampled
              case Ok(salt) => lastMessage == Some(digest) && lastSalt == salt
              case Err(_) => lastMessage.None?
    {
      sampled, requests := SampleGuarded(digest, message, fill);
      Remember(digest, sampled);
    }

    /** Put the spent leaf on file; a failed write closes the signer and releases the lock. */
    method PersistOrClose(ghost before: Record, ghost digest: Message, ghost source: Sampling.Source)
      requires store.Valid() && store.m == For(i, hash) && store.At(p, Live(before, Ready)) && !sampling && !closed
      requires before.lastMessage != Some(digest) && before.nextLeaf < store.m.leaves
      requires State() == store.m.Attempt(before, digest, source)
      requires key.Valid() && key.Kind() == i && key.t.hash == hash
      modifies this`closed, store
      ensures Valid() && Signer.Continues(old(store.history), store.history, p)
      ensures store.main == Present(store.m.write(State())) || (closed && store.main == old(store.main))
      ensures if closed then store.holder.None? else store.system.Durable()
      ensures !closed <==> store.AllWork(old(store.ops), 4)
      ensures store.system.released == old(store.system.released) + if closed then {} else store.m.ReleaseOf(State())
    {
      var ok := PersistOrLeave(i, hash, store, p, before, digest, source, State());
      closed := !ok;
    }

    /** Spend the next leaf: in memory, then on file; a failed write closes the signer. */
    method Spend(digest: Message, message: array<byte>, fill: Callback)
      returns (sampled: Result<Salt, Sampling.SigningError>, requests: nat)
      requires Valid() && !closed && lastMessage != Some(digest) && nextLeaf < i.Leaves()
      modifies this, store, message
      ensures Valid() && Signer.Continues(old(store.history), store.history, p)
      ensures requests <= 4096
      ensures State() == store.m.Attempt(old(State()), digest, AsSource(fill)) && nextLeaf == old(nextLeaf) + 1
      ensures sampled == store.m.sample(old(State()), digest, AsSource(fill))
      ensures Signer.Asks(store.m, hash, old(State()), digest, AsSource(fill), requests)
      ensures match sampled
              case Ok(salt) => lastMessage == Some(digest) && lastSalt == salt
              case Err(_) => lastMessage.None?
      ensures store.main == Present(store.m.write(State())) || (closed && store.main == old(store.main))
      ensures if closed then store.holder.None? else store.system.Durable()
      ensures !closed <==> store.AllWork(old(store.ops), 4)
      ensures store.system.released == old(store.system.released) + if closed then {} else store.m.ReleaseOf(State())
    {
      ghost var before := State();
      sampled, requests := Advance(digest, message, fill);
      PersistOrClose(before, digest, AsSource(fill));
    }

    method Attempt(digest: Message, message: array<byte>, fill: Callback) returns (r: Result<Bytes, Failure>, requests: nat)
      requires Valid() && !closed && lastMessage != Some(digest) && nextLeaf < i.Leaves()
      modifies this, store, message
      ensures Valid() && Signer.Continues(old(store.history), store.history, p)
      ensures requests <= 4096
      ensures State() == store.m.Attempt(old(State()), digest, AsSource(fill))
      ensures Signer.Asks(store.m, hash, old(State()), digest, AsSource(fill), requests)
      ensures store.main == Present(store.m.write(State())) || (closed && store.main == old(store.main))
      ensures if closed then store.holder.None? else store.system.Durable()
      ensures !closed <==> store.AllWork(old(store.ops), 4)
      ensures r.Ok? <==> !closed && lastMessage == Some(digest)
      ensures r.Ok? <==> store.AllWork(old(store.ops), 4) && store.m.sample(old(State()), digest, AsSource(fill)).Ok?
      ensures r.Err? ==> r.error.Signing? && if closed then r.error.error == Sampling.Io
                                             else store.m.sample(old(State()), digest, AsSource(fill)) == Err(r.error.error)
      ensures r.Ok? ==> store.m.Signature(State()) == Some(r.value)
      ensures store.system.released == old(store.system.released) + if r.Ok? then store.m.ReleaseOf(State()) else {}
    {
      var sampled;
      sampled, requests := Spend(digest, message, fill);
      if closed {
        return Err(Signing(Sampling.Io)), requests;
      }
      if sampled.Err? {
        return Err(Signing(sampled.error)), requests;
      }
      var sig := Recorded();
      return Ok(sig), requests;
    }

    /** The signature of the recorded message. */
    method Recorded() returns (sig: Bytes)
      requires Coupled() && !closed && lastMessage.Some?
      ensures store.m.Signature(State()) == Some(sig)
    {
      ReadyFacts();
      sig := SignRecorded(i, hash, key, State(), nextLeaf - 1, lastMessage.value, lastSalt);
    }

    /** A retry: no callback, no file. */
    method Retry(digest: Message, ghost fill: Callback) returns (r: Bytes)
      requires Valid() && !closed && lastMessage == Some(digest)
      modifies store
      ensures Valid() && store.main == old(store.main) && Signer.Continues(old(store.history), store.history, p)
      ensures store.m.Signature(State()) == Some(r)
      ensures store.system.released == old(store.system.released) + store.m.ReleaseOf(State())
    {
      r := Recorded();
      store.HandOut(p, State(), digest, AsSource(fill));
    }

    /** `signWithRng`. Whatever the callback calls or overwrites, the attempt is for the message as it
        was on entry, at the leaf that was next on entry. */
    method SignWithRng(message: array<byte>, fill: Callback) returns (r: Result<Bytes, Failure>, requests: nat)
      requires Valid()
      modifies this, store, message
      ensures Valid() && Signer.Continues(old(store.history), store.history, p)
      ensures requests <= 4096
      // no attempt: neither the callback nor the state nor the file is touched
      ensures old(closed) || message.Length != MESSAGE_LENGTH || old(lastMessage) == Some(old(message[..])) || old(nextLeaf) >= i.Leaves() ==>
                requests == 0 && State() == old(State()) && closed == old(closed) && store.main == old(store.main)
                && message[..] == old(message[..])
      ensures old(closed) ==> r == Err(Signing(Sampling.Unusable))
      ensures !old(closed) && message.Length != MESSAGE_LENGTH ==> r == Err(InvalidLength)
      ensures !old(closed) && message.Length == MESSAGE_LENGTH && old(lastMessage) == Some(old(message[..])) ==>
                r.Ok? && store.m.Signature(old(State())) == Some(r.value)
      ensures !old(closed) && message.Length == MESSAGE_LENGTH && old(lastMessage) != Some(old(message[..])) && old(nextLeaf) >= i.Leaves() ==>
                r == Err(Signing(Sampling.Exhausted))
      // an attempt, for the message on entry
      ensures !old(closed) && message.Length == MESSAGE_LENGTH && old(lastMessage) != Some(old(message[..])) && old(nextLeaf) < i.Leaves() ==>
                && State() == store.m.Attempt(old(State()), old(message[..]), AsSource(fill))
                && Signer.Asks(store.m, hash, old(State()), old(message[..]), AsSource(fill), requests)
                && (store.main == Present(store.m.write(State())) || (closed && store.main == old(store.main)))
                && (if closed then store.holder.None? else store.system.Durable())
                && (r.Ok? <==> !closed && lastMessage == Some(old(message[..])))
                && (!closed <==> store.AllWork(old(store.ops), 4))
                && (r.Ok? <==> !closed && store.m.sample(old(State()), old(message[..]), AsSource(fill)).Ok?)
                && (r.Ok? ==> store.m.Signature(State()) == Some(r.value))
                && (r.Err? ==> r.error.Signing?
                               && if closed then r.error.error == Sampling.Io
                                  else store.m.sample(old(State()), old(message[..]), AsSource(fill)) == Err(r.error.error))
      ensures store.system.released == old(store.system.released) + if r.Ok? then store.m.ReleaseOf(State()) else {}
    {
      var refused := Enter();
      if refused.Some? {
        return Err(Signing(refused.value)), 0;
      }
      if message.Length != MESSAGE_LENGTH {
        return Err(InvalidLength), 0;
      }
      var digest: Message := message[..];
      if lastMessage == Some(digest) {
        var sig := Retry(digest, fill);
        return Ok(sig), 0;
      }
      if nextLeaf >= i.Leaves() {
        return Err(Signing(Sampling.Exhausted)), 0;
      }
      r, requests := Attempt(digest, message, fill);
    }
  }
}
