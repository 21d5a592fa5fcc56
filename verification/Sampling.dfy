/** Bounded rejection sampling of salts, raw signing and key generation over a caller's random source. */
module Sampling {
  import opened Bytes
  import opened TweakHash
  import opened Instances
  import Encoding
  import Keys

  datatype SigningError =
    | Exists | Missing | Locked | Corrupt
    | LeafBelowMinimum(nextLeaf: u32, minimum: u32)
    | InvalidLeaf | Exhausted | SaltsExhausted | Random | Unusable | Io

  /** `K`: salts tried per attempt. */
  const MAX_TRIALS: nat := 4096

  /** What the source does at each request: fill the buffer, or fail. */
  type Source = nat -> Result<Salt, SigningError>

  /** The outcome from request `k` on. */
  function SampleFrom(t: TweakHash, leaf: u32, message: Message, source: Source, k: nat): Result<Salt, SigningError>
    requires k <= MAX_TRIALS
    decreases MAX_TRIALS - k
  {
    if k == MAX_TRIALS then Err(SaltsExhausted)
    else
      match source(k)
      case Err(error) => Err(error)
      case Ok(salt) =>
        if t.Encode(salt, leaf, message).Some? then Ok(salt) else SampleFrom(t, leaf, message, source, k + 1)
  }

  function Sample(t: TweakHash, leaf: u32, message: Message, source: Source): Result<Salt, SigningError> {
    SampleFrom(t, leaf, message, source, 0)
  }

  /** Request `k` was filled with a salt that misses the target sum. */
  ghost predicate Rejected(t: TweakHash, leaf: u32, message: Message, source: Source, k: nat) {
    source(k).Ok? && t.Encode(source(k).value, leaf, message).None?
  }

  /** Request `k` decides: every earlier salt misses the target sum, and this one meets it or never comes. */
  ghost predicate Decides(t: TweakHash, leaf: u32, message: Message, source: Source, k: nat) {
    !Rejected(t, leaf, message, source, k) && forall j :: 0 <= j < k ==> Rejected(t, leaf, message, source, j)
  }

  /** Sampling tries 4096 salts, no fewer and no more: the first request that decides among them gives
      the outcome, and without one the salts are exhausted. */
  lemma {:induction false} SampleExactly(t: TweakHash, leaf: u32, message: Message, source: Source)
    ensures forall k :: 0 <= k < 4096 && Decides(t, leaf, message, source, k) ==> Sample(t, leaf, message, source) == source(k)
    ensures (forall k :: 0 <= k < 4096 ==> Rejected(t, leaf, message, source, k)) ==>
              Sample(t, leaf, message, source) == Err(SaltsExhausted)
  {
    forall k | 0 <= k < 4096 && Decides(t, leaf, message, source, k)
      ensures Sample(t, leaf, message, source) == source(k)
    {
      SkipRejected(t, leaf, message, source, k);
    }
    if forall k :: 0 <= k < 4096 ==> Rejected(t, leaf, message, source, k) {
      SkipRejected(t, leaf, message, source, 4096);
    }
  }

  lemma {:induction false} SkipRejected(t: TweakHash, leaf: u32, message: Message, source: Source, k: nat)
    requires k <= MAX_TRIALS && forall j :: 0 <= j < k ==> Rejected(t, leaf, message, source, j)
    ensures Sample(t, leaf, message, source) == SampleFrom(t, leaf, message, source, k)
  {
    if k > 0 {
      SkipRejected(t, leaf, message, source, k - 1);
      assert Rejected(t, leaf, message, source, k - 1);
    }
  }

  /** Sampling ends with the request that decides, and has its outcome, or is exhausted after 4096. */
  ghost predicate SampledIn(t: TweakHash, leaf: u32, message: Message, source: Source, r: Result<Salt, SigningError>, requests: nat) {
    || (0 < requests <= 4096 && Decides(t, leaf, message, source, requests - 1) && r == source(requests - 1))
    || (requests == 4096 && r == Err(SaltsExhausted) && forall k :: 0 <= k < 4096 ==> Rejected(t, leaf, message, source, k))
  }

  /** So the first request that decides is the last one made. */
  lemma FirstDecides(t: TweakHash, leaf: u32, message: Message, source: Source, r: Result<Salt, SigningError>, requests: nat, k: nat)
    requires SampledIn(t, leaf, message, source, r, requests) && k < 4096 && Decides(t, leaf, message, source, k)
    ensures requests == k + 1 && r == source(k)
  {
  }

  /** And the result is what sampling specifies. */
  lemma SampledIs(t: TweakHash, leaf: u32, message: Message, source: Source, r: Result<Salt, SigningError>, requests: nat)
    requires SampledIn(t, leaf, message, source, r, requests)
    ensures r == Sample(t, leaf, message, source)
  {
    SampleExactly(t, leaf, message, source);
  }

  /** `sample_salt`: refill one buffer at most 4096 times and stop at the first accepted salt, the
      first failure of the source, or the bound. */
  method SampleSalt(t: TweakHash, leaf: u32, message: Message, source: Source)
    returns (r: Result<Salt, SigningError>, requests: nat)
    ensures r == Sample(t, leaf, message, source)
    ensures requests <= 4096
    ensures SampledIn(t, leaf, message, source, r, requests)
    ensures match r
            case Ok(salt) =>
              && requests > 0 && source(requests - 1) == Ok(salt) && t.Encode(salt, leaf, message).Some?
              && forall k :: 0 <= k < requests - 1 ==> Rejected(t, leaf, message, source, k)
            case Err(error) =>
              // the source's own error, or too many rejected salts
              || (requests > 0 && source(requests - 1) == Err(error)
                  && forall k :: 0 <= k < requests - 1 ==> Rejected(t, leaf, message, source, k))
              || (error == SaltsExhausted && requests == 4096
                  && forall k :: 0 <= k < 4096 ==> Rejected(t, leaf, message, source, k))
  {
    requests := 0;
    while requests < MAX_TRIALS
      invariant requests <= MAX_TRIALS
      invariant Sample(t, leaf, message, source) == SampleFrom(t, leaf, message, source, requests)
      invariant forall k :: 0 <= k < requests ==> Rejected(t, leaf, message, source, k)
    {
      var salt := source(requests);
      requests := requests + 1;
      if salt.Err? {
        return Err(salt.error), requests;
      }
      var x := Encoding.Encode(t, salt.value, leaf, message);
      if x.Some? {
        return Ok(salt.value), requests;
      }
    }
    return Err(SaltsExhausted), requests;
  }

  lemma {:induction false} SampleAccepts(t: TweakHash, leaf: u32, message: Message, source: Source, k: nat)
    requires k <= MAX_TRIALS && SampleFrom(t, leaf, message, source, k).Ok?
    ensures t.Encode(SampleFrom(t, leaf, message, source, k).value, leaf, message).Some?
    decreases MAX_TRIALS - k
  {
    if t.Encode(source(k).value, leaf, message).None? {
      SampleAccepts(t, leaf, message, source, k + 1);
    }
  }

  /** `hazmat::sign_at` over either instance: a leaf outside the key is refused before the source is
      used, and every signature it returns verifies. */
  method SignAt(i: Instance, key: Keys.Key, leaf: u32, message: Message, source: Source)
    returns (r: Result<Bytes, SigningError>, requests: nat)
    requires i.Owns(key)
    ensures leaf >= i.Leaves() ==> r == Err(InvalidLeaf) && requests == 0
    ensures leaf < i.Leaves() ==>
              match Sample(key.t, leaf, message, source)
              case Err(error) => r == Err(error)
              case Ok(salt) => r.Ok? && i.Sign(key, leaf, message, salt) == Some(r.value)
    ensures r.Ok? ==> |r.value| == i.SignatureLength() && i.LeafOf(r.value) == leaf
                      && i.Verify(key.t.hash, key.VerifyingKey(), message, r.value)
  {
    if leaf >= i.Leaves() {
      return Err(InvalidLeaf), 0;
    }
    var salt, n := SampleSalt(key.t, leaf, message, source);
    if salt.Err? {
      return Err(salt.error), n;
    }
    SignsExactly(i, key, leaf, message, salt.value);
    SignedVerifies(i, key, leaf, message, salt.value);
    return Ok(i.Sign(key, leaf, message, salt.value).value), n;
  }

  /** A source of raw bytes: the answer to request `k` for `n` bytes. */
  type ByteSource = (nat, nat) -> Result<Bytes, SigningError>

  ghost predicate Fills(source: ByteSource) {
    forall k: nat, n: nat :: source(k, n).Ok? ==> |source(k, n).value| == n
  }

  /** The first `n` chunks are filled. */
  ghost predicate FillsChunks(source: ByteSource, n: nat) {
    forall k :: 0 <= k < n ==> source(k, ELEMENTS_LENGTH).Ok?
  }

  /** `hazmat::generate`: one 828-byte request per leaf, then one for the parameter; the first failure
      ends it, and is the error. */
  method Generate(i: Instance, hash: Hash, source: ByteSource) returns (r: Result<Keys.Key, SigningError>)
    requires Fills(source)
    ensures r.Ok? <==> source(i.Leaves(), PARAMETER_LENGTH).Ok? && FillsChunks(source, i.Leaves())
    ensures r.Err? ==>
              || (FillsChunks(source, i.Leaves()) && source(i.Leaves(), PARAMETER_LENGTH) == Err(r.error))
              || exists k :: 0 <= k < i.Leaves() && FillsChunks(source, k) && source(k, ELEMENTS_LENGTH) == Err(r.error)
    ensures r.Ok? ==>
              && i.Owns(r.value) && r.value.t.hash == hash
              && Ok(r.value.t.parameter) == source(i.Leaves(), PARAMETER_LENGTH)
              && forall k :: 0 <= k < i.Leaves() ==> Ok(r.value.Starts(k)) == source(k, ELEMENTS_LENGTH)
  {
    var leaves := i.Leaves();
    var secrets := new byte[leaves * ELEMENTS_LENGTH](_ => 0);
    for k := 0 to leaves
      invariant forall j :: 0 <= j < k ==>
        source(j, ELEMENTS_LENGTH) == Ok(secrets[ELEMENTS_LENGTH * j..ELEMENTS_LENGTH * (j + 1)])
    {
      var chunk := source(k, ELEMENTS_LENGTH);
      if chunk.Err? {
        return Err(chunk.error);
      }
      ghost var before := secrets[..];
      CopyAt(secrets, ELEMENTS_LENGTH * k, chunk.value);
      forall j | 0 <= j < k + 1
        ensures source(j, ELEMENTS_LENGTH) == Ok(secrets[ELEMENTS_LENGTH * j..ELEMENTS_LENGTH * (j + 1)])
      {
        if j < k {
          assert secrets[ELEMENTS_LENGTH * j..ELEMENTS_LENGTH * (j + 1)] == before[ELEMENTS_LENGTH * j..ELEMENTS_LENGTH * (j + 1)];
        }
      }
    }
    var parameter := source(leaves, PARAMETER_LENGTH);
    if parameter.Err? {
      return Err(parameter.error);
    }
    return Ok(Keys.Key(TweakHash(hash, parameter.value), i.Height(), secrets[..]));
  }
}
