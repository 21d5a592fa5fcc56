/** `encode`: the nibble loop, and why equal digit sums replace a checksum. */
module Encoding {
  import opened Bytes
  import opened TweakHash

  /** Fill the 36 digits one by one, add them up, and accept exactly the target sum. */
  method Encode(t: TweakHash, salt: Salt, leaf: u32, message: Message) returns (r: Option<Digits>)
    ensures r == t.Encode(salt, leaf, message)
  {
    var digest := t.hash(t.MessageInput(salt, leaf, message));
    var x := new Digit[CHAINS](_ => 0);
    for i := 0 to CHAINS
      invariant forall j :: 0 <= j < i ==> x[j] == Nibble(digest, j)
    {
      x[i] := Nibble(digest, i);
    }
    assert x[..] == t.DigitsOf(salt, leaf, message);
    var sum := 0;
    for i := 0 to CHAINS
      invariant sum == Sum(x[..i])
      // a u16 accumulator never overflows
      invariant sum <= (POSITIONS - 1) * i
    {
      assert x[..i + 1][..i] == x[..i];
      sum := sum + x[i];
    }
    assert x[..CHAINS] == x[..];
    r := if sum == TARGET_SUM then Some(x[..]) else None;
  }

  /** The digits are the low-first nibbles of the first 18 digest bytes: each byte reads back from its
      two digits, so distinct 18-byte prefixes have distinct digits. */
  lemma DigitsReadBack(t: TweakHash, salt: Salt, leaf: u32, message: Message, j: nat)
    requires j < 18
    ensures var x, digest := t.DigitsOf(salt, leaf, message), t.hash(t.MessageInput(salt, leaf, message));
            digest[j] == 16 * (x[2 * j + 1] as int) + x[2 * j]
  {
    var digest := t.hash(t.MessageInput(salt, leaf, message));
    var x := t.DigitsOf(salt, leaf, message);
    assert x[2 * j] == Nibble(digest, 2 * j) && x[2 * j + 1] == Nibble(digest, 2 * j + 1);
  }

  /** What the digits see of a salted digest: its first 18 bytes. */
  function Prefix(t: TweakHash, salt: Salt, leaf: u32, message: Message): Bytes {
    t.hash(t.MessageInput(salt, leaf, message))[..18]
  }

  /** Two salted digests have the same digits exactly when they share those bytes. */
  lemma SameDigits(t: TweakHash, s: Salt, s': Salt, leaf: u32, m: Message, m': Message)
    ensures t.DigitsOf(s, leaf, m) == t.DigitsOf(s', leaf, m') <==> Prefix(t, s, leaf, m) == Prefix(t, s', leaf, m')
  {
    var x, y, a, b := t.DigitsOf(s, leaf, m), t.DigitsOf(s', leaf, m'), Prefix(t, s, leaf, m), Prefix(t, s', leaf, m');
    if x == y {
      forall j | 0 <= j < 18
        ensures a[j] == b[j]
      {
        DigitsReadBack(t, s, leaf, m, j);
        DigitsReadBack(t, s', leaf, m', j);
      }
    }
    if a == b {
      forall i | 0 <= i < CHAINS
        ensures x[i] == y[i]
      {
        assert t.hash(t.MessageInput(s, leaf, m))[i / 2] == a[i / 2] && t.hash(t.MessageInput(s', leaf, m'))[i / 2] == b[i / 2];
      }
    }
  }

  /** Digit by digit below. */
  ghost predicate Below(x: seq<nat>, y: seq<nat>)
    requires |x| == |y|
  {
    forall i :: 0 <= i < |x| ==> x[i] <= y[i]
  }

  lemma {:induction false} BelowSums(x: seq<nat>, y: seq<nat>)
    requires |x| == |y| && Below(x, y)
    ensures Sum(x) <= Sum(y)
    ensures Sum(x) == Sum(y) ==> x == y
  {
    if |x| > 0 {
      var n := |x| - 1;
      BelowSums(x[..n], y[..n]);
      assert x == x[..n] + [x[n]] && y == y[..n] + [y[n]];
    }
  }

  /** Distinct vectors with equal sums are incomparable, for any number of chains, any positions and any
      target sum. */
  lemma EqualSumsIncomparable(x: seq<nat>, y: seq<nat>)
    requires |x| == |y| && Sum(x) == Sum(y) && x != y
    ensures exists i :: 0 <= i < |x| && x[i] < y[i]
    ensures exists i :: 0 <= i < |x| && y[i] < x[i]
  {
    if Below(y, x) {
      BelowSums(y, x);
    }
    if Below(x, y) {
      BelowSums(x, y);
    }
  }

  /** Distinct accepted encodings are incomparable: each is strictly smaller at some chain, so a
      signature for one never lets its holder walk every chain forward to the other. */
  lemma AcceptedIncomparable(t: TweakHash, s: Salt, s': Salt, l: u32, l': u32, m: Message, m': Message)
    requires t.Encode(s, l, m).Some? && t.Encode(s', l', m').Some?
    requires t.Encode(s, l, m) != t.Encode(s', l', m')
    ensures var x, y := t.Encode(s, l, m).value, t.Encode(s', l', m').value;
            (exists i :: 0 <= i < CHAINS && x[i] < y[i]) && (exists i :: 0 <= i < CHAINS && y[i] < x[i])
  {
    var x, y := t.Encode(s, l, m).value, t.Encode(s', l', m').value;
    EqualSumsIncomparable(x, y);
  }
}
