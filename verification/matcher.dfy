/**
 * Querying a compact block filter (BIP 158, "Set Querying/Decompression"):
 * do any of the target scripts belong to the filter?
 *
 * The targets are hashed with the ranged hash and sorted. The filter is a
 * sequence of Golomb-Rice coded gaps whose running sums are its ascending
 * members. The query walks both in step, a two-pointer merge, and stops at
 * the first common value or as soon as every target lies behind.
 */
module Matcher {

  import opened Results
  import opened SipHash
  import opened Golomb
  import opened RangedHash

  /** The Golomb-Rice parameter of the basic filter type. */
  const P: nat := 19

  /** Why a query failed: there was no target to look for, or the filter could not be decoded. */
  datatype MatchError = NoTargets | Malformed(error: DecodeError)

  // Sorting, as `list.sort()` does to the target hashes.

  predicate Sorted(s: seq<nat>)
  {
    forall i, j | 0 <= i < j < |s| :: s[i] <= s[j]
  }

  /** Inserts `x` into a sorted list before the first element not below it. */
  function Insert(x: nat, s: seq<nat>): seq<nat>
  {
    if s == [] || x <= s[0] then [x] + s else [s[0]] + Insert(x, s[1..])
  }

  /** Insertion sort, ascending. */
  function Sort(s: seq<nat>): seq<nat>
  {
    if s == [] then [] else Insert(s[0], Sort(s[1..]))
  }

  /** Inserting `x` above a lower bound `b` of `s` keeps `b` a lower bound. */
  lemma {:induction false} InsertAbove(b: nat, x: nat, s: seq<nat>)
    requires b <= x && forall k | 0 <= k < |s| :: b <= s[k]
    ensures forall k | 0 <= k < |Insert(x, s)| :: b <= Insert(x, s)[k]
  {
    if s != [] && x > s[0] {
      InsertAbove(b, x, s[1..]);
    }
  }

  /** A lower bound of a sorted list can head it. */
  lemma {:induction false} SortedCons(a: nat, r: seq<nat>)
    requires Sorted(r) && forall k | 0 <= k < |r| :: a <= r[k]
    ensures Sorted([a] + r)
  {
    var s := [a] + r;
    forall i, j | 0 <= i < j < |s|
      ensures s[i] <= s[j]
    {
      if i > 0 {
        assert s[i] == r[i - 1] && s[j] == r[j - 1];
      } else {
        assert s[j] == r[j - 1];
      }
    }
  }

  lemma {:induction false} InsertSorted(x: nat, s: seq<nat>)
    requires Sorted(s)
    ensures Sorted(Insert(x, s))
  {
    if s == [] || x <= s[0] {
      SortedCons(x, s);
    } else {
      InsertSorted(x, s[1..]);
      InsertAbove(s[0], x, s[1..]);
      SortedCons(s[0], Insert(x, s[1..]));
    }
  }

  lemma {:induction false} InsertMultiset(x: nat, s: seq<nat>)
    ensures multiset(Insert(x, s)) == multiset(s) + multiset{x}
  {
    if s != [] && x > s[0] {
      InsertMultiset(x, s[1..]);
      assert s == [s[0]] + s[1..];
    }
  }

  /** The sorted list is in ascending order and holds the same elements, as often as the input. */
  lemma {:induction false} SortFacts(s: seq<nat>)
    ensures Sorted(Sort(s))
    ensures multiset(Sort(s)) == multiset(s)
  {
    if s != [] {
      SortFacts(s[1..]);
      InsertSorted(s[0], Sort(s[1..]));
      InsertMultiset(s[0], Sort(s[1..]));
      assert s == [s[0]] + s[1..];
    }
  }

  // What the query computes.

  /** Every target lies below `v`: the merge has run out of targets. */
  predicate AllBelow(targets: set<nat>, v: nat)
  {
    forall t | t in targets :: t < v
  }

  /**
   * The outcome of the merge with `remaining` gaps still to decode from
   * `pos`, the running sum standing at `value`: decode the next gap, and stop
   * with true when the new sum is a target, with false when every target is
   * below it; a decode failure ends the query.
   */
  function MatchFrom(targets: set<nat>, bits: seq<bool>, pos: nat, value: nat, remaining: nat): Result<bool, DecodeError>
    requires pos <= |bits|
    decreases remaining, 0
  {
    if remaining == 0 then Ok(false)
    else
      var (delta, next) := RiceDecode(bits, pos, P);
      if delta.Err? then Err(delta.error)
      else Settle(targets, bits, next, value + delta.value, remaining - 1)
  }

  /** The merge having reached the sum `v`: a hit, a miss because every target is behind, or on to the next gap. */
  function Settle(targets: set<nat>, bits: seq<bool>, pos: nat, v: nat, remaining: nat): Result<bool, DecodeError>
    requires pos <= |bits|
    decreases remaining, 1
  {
    if v in targets then Ok(true)
    else if AllBelow(targets, v) then Ok(false)
    else MatchFrom(targets, bits, pos, v, remaining)
  }

  /** The ranged hash under the block hash `key` for a filter of `n` members. */
  function HashOf(key: seq<byte>, n: nat): seq<byte> -> nat
  {
    t => ElementHash(t, n, key)
  }

  /** The hashes of the targets. */
  function Image(hashOf: seq<byte> -> nat, targets: seq<seq<byte>>): set<nat>
  {
    set t | t in targets :: hashOf(t)
  }

  /** The ranged hashes of the targets. */
  function TargetHashes(key: seq<byte>, targets: seq<seq<byte>>, n: nat): set<nat>
  {
    Image(HashOf(key, n), targets)
  }

  /**
   * The query over a filter of `n` members under the block hash `key`. The
   * original reads the first sorted hash before decoding anything, so an
   * empty target list fails there.
   */
  function GcsMatch(key: seq<byte>, targets: seq<seq<byte>>, bits: seq<bool>, n: nat): Result<bool, MatchError>
  {
    if targets == [] then Err(NoTargets)
    else
      match MatchFrom(TargetHashes(key, targets, n), bits, 0, 0, n)
      case Ok(found) => Ok(found)
      case Err(e) => Err(Malformed(e))
  }

  // The query as the original runs it.

  /** `hashes` holds the hashes of the first `i` targets, in order. */
  ghost predicate Hashed(hashOf: seq<byte> -> nat, targets: seq<seq<byte>>, hashes: seq<nat>, i: nat)
  {
    i <= |targets| && |hashes| == i && forall j | 0 <= j < i :: hashes[j] == hashOf(targets[j])
  }

  /** The merge pointer: `targetVal` is the hash at `idx`, and every hash before it is below `value`. */
  ghost predicate Merging(hashes: seq<nat>, idx: nat, targetVal: nat, value: nat)
  {
    idx < |hashes| && targetVal == hashes[idx] && forall j | 0 <= j < idx :: hashes[j] < value
  }

  /** The members of a list, as a set. */
  function Members(hashes: seq<nat>): set<nat>
  {
    set x | x in hashes
  }

  /**
   * `gcs_match_any`: hashes the targets, sorts the hashes, fails on an empty
   * list where the original reads the first hash, and runs the merge.
   */
  method GcsMatchAny(key: seq<byte>, targets: seq<seq<byte>>, bits: seq<bool>, n: nat) returns (res: Result<bool, MatchError>)
    ensures res == GcsMatch(key, targets, bits, n)
  {
    var hashes: seq<nat> := [];
    for i := 0 to |targets|
      invariant Hashed(HashOf(key, n), targets, hashes, i)
    {
      var h := BasicElementHash(targets[i], n, key);
      HashedNext(HashOf(key, n), targets, hashes, i, h);
      hashes := hashes + [h];
    }
    HashedAll(HashOf(key, n), targets, hashes);
    hashes := SortHashes(hashes);
    if |hashes| == 0 {
      return Err(NoTargets);
    }
    var found := MatchSorted(hashes, bits, n);
    GcsMatchOfSorted(key, targets, bits, n, hashes);
    match found
    case Ok(b) => res := Ok(b);
    case Err(e) => res := Err(Malformed(e));
  }

  /** Appending the hash of the next target extends the hashed prefix. */
  lemma {:induction false} HashedNext(hashOf: seq<byte> -> nat, targets: seq<seq<byte>>, hashes: seq<nat>, i: nat, h: nat)
    requires Hashed(hashOf, targets, hashes, i) && i < |targets| && h == hashOf(targets[i])
    ensures Hashed(hashOf, targets, hashes + [h], i + 1)
  {
  }

  /** With the target hashes in a list of the same members, the query is the merge over that list. */
  lemma {:induction false} GcsMatchOfSorted(key: seq<byte>, targets: seq<seq<byte>>, bits: seq<bool>, n: nat, hashes: seq<nat>)
    requires targets != [] && Members(hashes) == TargetHashes(key, targets, n)
    ensures MatchFrom(Members(hashes), bits, 0, 0, n).Ok? ==> GcsMatch(key, targets, bits, n) == Ok(MatchFrom(Members(hashes), bits, 0, 0, n).value)
    ensures MatchFrom(Members(hashes), bits, 0, 0, n).Err? ==> GcsMatch(key, targets, bits, n) == Err(Malformed(MatchFrom(Members(hashes), bits, 0, 0, n).error))
  {
  }

  /**
   * The merge of `gcs_match_any`: decodes the `n` gaps one by one into a
   * running sum and moves the target pointer forward past every hash below
   * it, stopping at a hit or when no hash is left.
   */
  method MatchSorted(hashes: seq<nat>, bits: seq<bool>, n: nat) returns (res: Result<bool, DecodeError>)
    requires Sorted(hashes) && |hashes| > 0
    ensures res == MatchFrom(Members(hashes), bits, 0, 0, n)
  {
    ghost var goal := Members(hashes);
    var stream := new BitStream(bits);
    var value: nat := 0;
    var idx: nat := 0;
    var targetVal: nat := hashes[idx];
    for k := 0 to n
      invariant stream.bits == bits && stream.Valid()
      invariant Merging(hashes, idx, targetVal, value)
      invariant MatchFrom(goal, bits, 0, 0, n) == MatchFrom(goal, bits, stream.pos, value, n - k)
    {
      ghost var before, from := value, stream.pos;
      var delta := GolombDecode(stream, P);
      MatchStep(goal, bits, from, before, n - k);
      if delta.Err? {
        return Err(delta.error);
      }
      value := value + delta.value;
      MergingLater(hashes, idx, targetVal, before, value);
      while true
        invariant Merging(hashes, idx, targetVal, value)
        decreases |hashes| - idx
      {
        if targetVal == value {
          Hit(hashes, idx, value);
          return Ok(true);
        } else if targetVal > value {
          break;
        } else {
          idx := idx + 1;
          if idx == |hashes| {
            Exhausted(hashes, value);
            return Ok(false);
          }
          targetVal := hashes[idx];
        }
      }
      Passed(hashes, idx, value);
    }
    return Ok(false);
  }

  /** After hashing every target, the list holds exactly the target hashes. */
  lemma {:induction false} HashedAll(hashOf: seq<byte> -> nat, targets: seq<seq<byte>>, hashes: seq<nat>)
    requires Hashed(hashOf, targets, hashes, |targets|)
    ensures Members(hashes) == Image(hashOf, targets)
  {
    forall x
      ensures x in hashes <==> x in Image(hashOf, targets)
    {
      if x in hashes {
        var j :| 0 <= j < |hashes| && hashes[j] == x;
        assert targets[j] in targets;
      }
      if x in Image(hashOf, targets) {
        var t :| t in targets && hashOf(t) == x;
        var j :| 0 <= j < |targets| && targets[j] == t;
        assert hashes[j] == x;
      }
    }
  }

  /** `list.sort()` on the hashes: the same members, as many of them, in ascending order. */
  method SortHashes(hashes: seq<nat>) returns (sorted: seq<nat>)
    ensures Sorted(sorted) && multiset(sorted) == multiset(hashes)
    ensures Members(sorted) == Members(hashes) && |sorted| == |hashes|
  {
    sorted := Sort(hashes);
    SortFacts(hashes);
    assert |sorted| == |multiset(sorted)| == |multiset(hashes)| == |hashes|;
    forall x
      ensures x in sorted <==> x in hashes
    {
      assert x in sorted <==> x in multiset(sorted);
      assert x in hashes <==> x in multiset(hashes);
    }
  }

  /** One gap decoded: a failure ends the merge, otherwise it settles at the new running sum. */
  lemma {:induction false} MatchStep(targets: set<nat>, bits: seq<bool>, pos: nat, value: nat, remaining: nat)
    requires pos <= |bits| && remaining > 0
    ensures var (delta, next) := RiceDecode(bits, pos, P);
            MatchFrom(targets, bits, pos, value, remaining) ==
              if delta.Err? then Err(delta.error) else Settle(targets, bits, next, value + delta.value, remaining - 1)
  {
  }

  /** A larger running sum keeps every skipped hash behind it. */
  lemma {:induction false} MergingLater(hashes: seq<nat>, idx: nat, targetVal: nat, value: nat, later: nat)
    requires Merging(hashes, idx, targetVal, value) && value <= later
    ensures Merging(hashes, idx, targetVal, later)
  {
  }

  /** The pointer landed on the running sum: it is a target. */
  lemma {:induction false} Hit(hashes: seq<nat>, idx: nat, value: nat)
    requires idx < |hashes| && hashes[idx] == value
    ensures value in Members(hashes)
  {
  }

  /** Every hash was skipped: all targets lie below the running sum. */
  lemma {:induction false} Exhausted(hashes: seq<nat>, value: nat)
    requires forall j | 0 <= j < |hashes| :: hashes[j] < value
    ensures value !in Members(hashes) && AllBelow(Members(hashes), value)
  {
  }

  /** The pointer stopped above the running sum: it is no target, and not every target is behind it. */
  lemma {:induction false} Passed(hashes: seq<nat>, idx: nat, value: nat)
    requires Sorted(hashes) && idx < |hashes| && hashes[idx] > value
    requires forall j | 0 <= j < idx :: hashes[j] < value
    ensures value !in Members(hashes) && !AllBelow(Members(hashes), value)
  {
    assert hashes[idx] in Members(hashes);
    forall j | 0 <= j < |hashes|
      ensures hashes[j] != value
    {
      if j > idx {
        assert hashes[idx] <= hashes[j];
      }
    }
  }

  // What the query means.

  /** The running sums of the gaps from `start`: the members of the filter, in order. */
  function Values(start: nat, deltas: seq<nat>): seq<nat>
    decreases |deltas|
  {
    if deltas == [] then [] else [start + deltas[0]] + Values(start + deltas[0], deltas[1..])
  }

  /** Some value of `vs` is a target. */
  predicate AnyIn(vs: seq<nat>, targets: set<nat>)
  {
    exists k | 0 <= k < |vs| :: vs[k] in targets
  }

  /** The running sums are as many as the gaps, ascending, and none is below the start. */
  lemma {:induction false} ValuesFacts(start: nat, deltas: seq<nat>)
    ensures |Values(start, deltas)| == |deltas|
    ensures Sorted(Values(start, deltas))
    ensures forall k | 0 <= k < |deltas| :: start <= Values(start, deltas)[k]
    decreases |deltas|
  {
    if deltas != [] {
      var v := start + deltas[0];
      ValuesFacts(v, deltas[1..]);
    }
  }

  lemma {:induction false} AnyInCons(v: nat, rest: seq<nat>, targets: set<nat>)
    ensures AnyIn([v] + rest, targets) == (v in targets || AnyIn(rest, targets))
  {
    var vs := [v] + rest;
    assert vs[0] == v;
    if AnyIn(rest, targets) {
      var k :| 0 <= k < |rest| && rest[k] in targets;
      assert vs[k + 1] == rest[k];
    }
    if AnyIn(vs, targets) {
      var k :| 0 <= k < |vs| && vs[k] in targets;
      if k > 0 {
        assert rest[k - 1] == vs[k];
      }
    }
  }

  /** Values none of which is below `v` miss every target when all targets are below `v`. */
  lemma {:induction false} NoneAbove(vs: seq<nat>, targets: set<nat>, v: nat)
    requires AllBelow(targets, v) && forall k | 0 <= k < |vs| :: v <= vs[k]
    ensures !AnyIn(vs, targets)
  {
  }

  /**
   * When the gaps all decode, the merge answers whether some running sum is
   * a target: stopping early, once every target is behind, loses nothing.
   */
  lemma {:induction false} MatchFromMeaning(targets: set<nat>, bits: seq<bool>, pos: nat, value: nat, remaining: nat, deltas: seq<nat>)
    requires pos <= |bits| && DecodeAll(bits, pos, remaining, P) == Ok(deltas)
    ensures MatchFrom(targets, bits, pos, value, remaining) == Ok(AnyIn(Values(value, deltas), targets))
    decreases remaining
  {
    if remaining > 0 {
      var (d, next) := RiceDecode(bits, pos, P);
      var rest := DecodeAll(bits, next, remaining - 1, P);
      assert d.Ok? && rest.Ok? && deltas == [d.value] + rest.value;
      var v := value + d.value;
      assert deltas[0] == d.value && deltas[1..] == rest.value;
      AnyInCons(v, Values(v, rest.value), targets);
      if v !in targets {
        if AllBelow(targets, v) {
          ValuesFacts(v, rest.value);
          NoneAbove(Values(v, rest.value), targets, v);
        } else {
          MatchFromMeaning(targets, bits, next, v, remaining - 1, rest.value);
        }
      }
    }
  }

  /**
   * The query over a filter whose `n` gaps decode: true exactly when the
   * ranged hash of some target is one of the filter's members.
   */
  lemma {:induction false} GcsMatchMeaning(key: seq<byte>, targets: seq<seq<byte>>, bits: seq<bool>, n: nat, deltas: seq<nat>)
    requires targets != [] && DecodeAll(bits, 0, n, P) == Ok(deltas)
    ensures GcsMatch(key, targets, bits, n) == Ok(AnyIn(Values(0, deltas), TargetHashes(key, targets, n)))
  {
    MatchFromMeaning(TargetHashes(key, targets, n), bits, 0, 0, n, deltas);
  }

  /** For a filter that Rice-codes the gaps `deltas`, the query asks whether a target hash is a running sum. */
  lemma {:induction false} GcsMatchEncoded(key: seq<byte>, targets: seq<seq<byte>>, bits: seq<bool>, deltas: seq<nat>)
    requires targets != [] && At(bits, 0, EncodeAll(deltas, P))
    ensures GcsMatch(key, targets, bits, |deltas|) == Ok(AnyIn(Values(0, deltas), TargetHashes(key, targets, |deltas|)))
  {
    DecodeAllEncoded(deltas, P, bits, 0);
    GcsMatchMeaning(key, targets, bits, |deltas|, deltas);
  }

  /** The order in which the targets are listed does not matter. */
  lemma {:induction false} GcsMatchOrder(key: seq<byte>, targets: seq<seq<byte>>, others: seq<seq<byte>>, bits: seq<bool>, n: nat)
    requires multiset(targets) == multiset(others)
    ensures GcsMatch(key, targets, bits, n) == GcsMatch(key, others, bits, n)
  {
    forall t
      ensures t in targets <==> t in others
    {
      assert t in targets <==> t in multiset(targets);
      assert t in others <==> t in multiset(others);
    }
    assert TargetHashes(key, targets, n) == TargetHashes(key, others, n);
    assert |targets| == |multiset(targets)| == |multiset(others)| == |others|;
  }

  /** An empty target list fails before anything is decoded; a filter of no members matches nothing. */
  lemma {:induction false} GcsMatchEdges(key: seq<byte>, targets: seq<seq<byte>>, bits: seq<bool>, n: nat)
    ensures GcsMatch(key, [], bits, n) == Err(NoTargets)
    ensures targets != [] ==> GcsMatch(key, targets, bits, 0) == Ok(false)
  {
  }

}
