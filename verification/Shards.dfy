/** Resharding of a test suite: greedy packing of consecutive cases, which no other
    contiguous split beats. Durations are exact reals here. */
module Shards {
  datatype Case = Case(name: string, duration: real)

  function Total(cases: seq<Case>): real {
    if cases == [] then 0.0 else Total(cases[..|cases| - 1]) + cases[|cases| - 1].duration
  }

  function Concat(shards: seq<seq<Case>>): seq<Case> {
    if shards == [] then [] else shards[0] + Concat(shards[1..])
  }

  predicate NonNegative(cases: seq<Case>) { forall c :: c in cases ==> c.duration >= 0.0 }

  /** A shard may exceed the target only if it is a single case. */
  predicate Fits(shard: seq<Case>, target: real) {
    shard != [] && (|shard| == 1 || Total(shard) <= target)
  }

  /** A way to cut `cases` into consecutive shards that fit. */
  ghost predicate IsSplit(shards: seq<seq<Case>>, cases: seq<Case>, target: real) {
    Concat(shards) == cases && forall s :: s in shards ==> Fits(s, target)
  }

  // ----- the greedy packing -----

  predicate Closes(current: seq<Case>, c: Case, target: real) {
    current != [] && Total(current) + c.duration > target
  }

  /** What packing `rest` yields when the shard `current` is already open. */
  function Pack(current: seq<Case>, rest: seq<Case>, target: real): seq<seq<Case>>
    decreases |rest|
  {
    if rest == [] then if current == [] then [] else [current]
    else if Closes(current, rest[0], target) then [current] + Pack([rest[0]], rest[1..], target)
    else Pack(current + [rest[0]], rest[1..], target)
  }

  lemma {:induction false} TotalPush(cases: seq<Case>, c: Case)
    ensures Total(cases + [c]) == Total(cases) + c.duration
  {
    assert (cases + [c])[..|cases|] == cases;
  }

  /** The packing is a split: contiguous, complete and within the target. */
  lemma {:induction false} PackIsSplit(current: seq<Case>, rest: seq<Case>, target: real)
    requires current == [] || Fits(current, target)
    ensures IsSplit(Pack(current, rest, target), current + rest, target)
    decreases |rest|
  {
    var shards := Pack(current, rest, target);
    if rest == [] {
      if current != [] {
        assert shards[1..] == [] && Concat(shards) == current + [];
      }
      assert current + rest == current;
    } else if Closes(current, rest[0], target) {
      PackIsSplit([rest[0]], rest[1..], target);
      assert shards[1..] == Pack([rest[0]], rest[1..], target);
      assert current + rest == current + ([rest[0]] + rest[1..]);
    } else {
      TotalPush(current, rest[0]);
      PackIsSplit(current + [rest[0]], rest[1..], target);
      assert current + rest == current + [rest[0]] + rest[1..];
    }
  }

  // ----- why it is optimal -----

  /** Opening with a lighter shard never costs a shard, and opening with any shard costs at
      most one. */
  lemma {:induction false} LighterIsNoWorse(a: seq<Case>, b: seq<Case>, rest: seq<Case>, target: real)
    requires a != [] && b != [] && NonNegative(b) && NonNegative(rest)
    ensures |Pack(a, rest, target)| <= |Pack(b, rest, target)| + 1
    ensures Total(a) <= Total(b) ==> |Pack(a, rest, target)| <= |Pack(b, rest, target)|
    decreases |rest|
  {
    if rest != [] {
      var c, more := rest[0], rest[1..];
      assert c in rest && forall x :: x in more ==> x in rest;
      TotalPush(a, c);
      TotalPush(b, c);
      TotalPush([], c);
      TotalNonNegative(b);
      assert [] + [c] == [c];
      if Closes(a, c, target) {
        if !Closes(b, c, target) {
          LighterIsNoWorse([c], b + [c], more, target);
        }
      } else if Closes(b, c, target) {
        LighterIsNoWorse(a + [c], [c], more, target);
      } else {
        LighterIsNoWorse(a + [c], b + [c], more, target);
      }
    }
  }

  lemma {:induction false} TotalNonNegative(cases: seq<Case>)
    requires NonNegative(cases)
    ensures Total(cases) >= 0.0
  {
    if cases != [] {
      assert cases[|cases| - 1] in cases;
      TotalNonNegative(cases[..|cases| - 1]);
    }
  }

  lemma {:induction false} PrefixIsLighter(cases: seq<Case>, n: nat)
    requires NonNegative(cases) && n <= |cases|
    ensures Total(cases[..n]) <= Total(cases)
    decreases |cases|
  {
    if n < |cases| {
      var most := cases[..|cases| - 1];
      assert cases[|cases| - 1] in cases && most[..n] == cases[..n];
      PrefixIsLighter(most, n);
    } else {
      assert cases[..n] == cases;
    }
  }

  /** Packing a shard that fits closes nothing on the way. */
  lemma {:induction false} PackTakesShard(shard: seq<Case>, n: nat, rest: seq<Case>, target: real)
    requires Fits(shard, target) && NonNegative(shard) && n <= |shard|
    ensures Pack(shard[..n], shard[n..] + rest, target) == Pack(shard, rest, target)
    decreases |shard| - n
  {
    if n == |shard| {
      assert shard[..n] == shard && shard[n..] + rest == rest;
    } else {
      var todo := shard[n..] + rest;
      assert todo[0] == shard[n] && todo[1..] == shard[n + 1..] + rest;
      assert shard[..n] + [shard[n]] == shard[..n + 1];
      TotalPush(shard[..n], shard[n]);
      PrefixIsLighter(shard, n + 1);
      PackTakesShard(shard, n + 1, rest, target);
    }
  }

  lemma {:induction false} OpenShardCostsOne(shard: seq<Case>, rest: seq<Case>, target: real)
    requires shard != [] && NonNegative(rest)
    ensures |Pack(shard, rest, target)| <= 1 + |Pack([], rest, target)|
  {
    if rest != [] {
      assert [] + [rest[0]] == [rest[0]] && rest[0] in rest && forall x :: x in rest[1..] ==> x in rest;
      if !Closes(shard, rest[0], target) {
        LighterIsNoWorse(shard + [rest[0]], [rest[0]], rest[1..], target);
      }
    }
  }

  /** No contiguous split into shards that fit uses fewer shards. */
  lemma {:induction false} GreedyIsOptimal(shards: seq<seq<Case>>, cases: seq<Case>, target: real)
    requires IsSplit(shards, cases, target) && NonNegative(cases)
    ensures |Pack([], cases, target)| <= |shards|
    decreases |shards|
  {
    if shards != [] {
      var first, rest := shards[0], Concat(shards[1..]);
      assert first in shards && forall s :: s in shards[1..] ==> s in shards;
      assert forall x :: x in first || x in rest ==> x in first + rest;
      GreedyIsOptimal(shards[1..], rest, target);
      PackTakesShard(first, 0, rest, target);
      assert first[..0] == [] && first[0..] == first;
      OpenShardCostsOne(first, rest, target);
    }
  }

  // ----- when shards stay within the target -----

  lemma {:induction false} CaseIsNoHeavier(shard: seq<Case>, k: nat)
    requires NonNegative(shard) && k < |shard|
    ensures shard[k].duration <= Total(shard)
  {
    PrefixIsLighter(shard, k + 1);
    assert shard[..k + 1][..k] == shard[..k];
    TotalNonNegative(shard[..k]);
  }

  lemma {:induction false} ShardOf(shards: seq<seq<Case>>, c: Case) returns (s: seq<Case>)
    requires c in Concat(shards)
    ensures s in shards && c in s
  {
    if c in shards[0] {
      s := shards[0];
    } else {
      s := ShardOf(shards[1..], c);
    }
  }

  lemma {:induction false} CasesOf(shards: seq<seq<Case>>, s: seq<Case>, c: Case)
    requires s in shards && c in s
    ensures c in Concat(shards)
  {
    if s != shards[0] {
      CasesOf(shards[1..], s, c);
    }
  }

  /** Shards stay within the target exactly if every single case does. */
  lemma {:induction false} WithinTargetExactly(shards: seq<seq<Case>>, cases: seq<Case>, target: real)
    requires IsSplit(shards, cases, target) && NonNegative(cases)
    ensures (forall s :: s in shards ==> Total(s) <= target) <==> (forall c :: c in cases ==> c.duration <= target)
  {
    hide Total, Concat;
    forall c | c in cases && forall s :: s in shards ==> Total(s) <= target
      ensures c.duration <= target
    {
      var s := ShardOf(shards, c);
      forall e | e in s
        ensures e.duration >= 0.0
      {
        CasesOf(shards, s, e);
      }
      var k: nat :| k < |s| && s[k] == c;
      CaseIsNoHeavier(s, k);
    }
    forall s | s in shards && forall c :: c in cases ==> c.duration <= target
      ensures Total(s) <= target
    {
      assert Fits(s, target);
      if |s| == 1 {
        CasesOf(shards, s, s[0]);
        SingleTotal(s);
      }
    }
  }

  lemma {:induction false} SingleTotal(s: seq<Case>)
    requires |s| == 1
    ensures Total(s) == s[0].duration
  {
    assert s[..0] == [];
  }

  /** A case above the target is a shard of its own, and that shard exceeds the target. */
  lemma {:induction false} LongCaseExceeds(c: Case, target: real)
    requires c.duration > target
    ensures Pack([], [c], target) == [[c]] && Total([c]) > target
  {
    assert [] + [c] == [c] && [c][1..] == [];
    SingleTotal([c]);
  }

  /** Cases that meet the target together share a shard, which is then not under it. */
  lemma {:induction false} ShardMayMeetTarget(a: Case, b: Case)
    ensures Pack([], [a, b], a.duration + b.duration) == [[a, b]]
    ensures Total([a, b]) == a.duration + b.duration
  {
    assert [] + [a] == [a] && [a, b][1..] == [b] && [a] + [b] == [a, b] && [b][1..] == [];
    SingleTotal([a]);
    TotalPush([a], b);
    var target := a.duration + b.duration;
    assert Pack([a, b], [], target) == [[a, b]];
    assert Pack([a], [b], target) == Pack([a, b], [], target);
  }

  /** `propose_shards`. */
  method ProposeShards(cases: seq<Case>, target: real) returns (shards: seq<seq<Case>>)
    ensures shards == Pack([], cases, target) && IsSplit(shards, cases, target)
    ensures NonNegative(cases) ==> forall other :: IsSplit(other, cases, target) ==> |shards| <= |other|
  {
    shards := [];
    var current: seq<Case> := [];
    var currentTotal := 0.0;
    assert shards + Pack([], cases, target) == Pack([], cases, target);
    for i := 0 to |cases|
      invariant currentTotal == Total(current)
      invariant Pack([], cases, target) == shards + Pack(current, cases[i..], target)
    {
      var c := cases[i];
      assert cases[i..][0] == c && cases[i..][1..] == cases[i + 1..];
      if current != [] && currentTotal + c.duration > target {
        assert shards + ([current] + Pack([c], cases[i + 1..], target)) ==
               shards + [current] + Pack([c], cases[i + 1..], target);
        shards := shards + [current];
        current, currentTotal := [], 0.0;
        assert [] + [c] == [c];
      }
      TotalPush(current, c);
      current := current + [c];
      currentTotal := currentTotal + c.duration;
    }
    assert cases[|cases|..] == [] && shards + [] == shards;
    if current != [] {
      shards := shards + [current];
    }
    assert shards == Pack([], cases, target);
    PackIsSplit([], cases, target);
    assert [] + cases == cases;
    forall other | NonNegative(cases) && IsSplit(other, cases, target)
      ensures |shards| <= |other|
    {
      GreedyIsOptimal(other, cases, target);
    }
  }
}
