/** That there is always something to converge: from any start a network can go through any number of rounds. */
module Liveness {
  import opened RouteTables
  import opened Networks
  import opened Refresh

  // The run goes on as more, without ever looking for old entries.
  ghost predicate GoesOn(trace: seq<State>, steps: seq<Step>, more: seq<State>, moreSteps: seq<Step>) {
    && trace <= more && steps <= moreSteps
    && forall i :: |steps| <= i < |moreSteps| ==> !moreSteps[i].Expire?
  }

  lemma OneStepMore(net: Network, trace: seq<State>, steps: seq<Step>, step: Step)
    requires WellWired(net) && IsRun(net, trace, steps)
    requires Populated(net, trace[|steps|]) && Enabled(net, trace[|steps|], step)
    ensures IsRun(net, trace + [Apply(net, trace[|steps|], step)], steps + [step])
  {
    var more, moreSteps := trace + [Apply(net, trace[|steps|], step)], steps + [step];
    forall i {:trigger moreSteps[i]} | 0 <= i < |moreSteps| ensures Taken(net, more[i], moreSteps[i], more[i + 1]) {
      if i < |steps| {
        assert Taken(net, trace[i], steps[i], trace[i + 1]);
      }
    }
  }

  lemma DeliveryWithin(net: Network, trace: seq<State>, steps: seq<Step>, a: Address, lo: nat, hi: nat)
      returns (i: nat, j: nat)
    requires WellWired(net) && IsRun(net, trace, steps) && a in net.peer && lo <= hi < |trace|
    requires Served(net, trace, steps, a, lo, hi)
    ensures lo <= i < j < hi && SentAndDelivered(net, trace, steps, a, i, j)
  {
    i, j :| lo <= i < j < hi && SentAndDelivered(net, trace, steps, a, i, j);
  }

  lemma DeliveryServes(net: Network, trace: seq<State>, steps: seq<Step>, a: Address, lo: nat, hi: nat, i: nat, j: nat)
    requires WellWired(net) && IsRun(net, trace, steps) && a in net.peer && lo <= hi < |trace|
    requires lo <= i < j < hi && SentAndDelivered(net, trace, steps, a, i, j)
    ensures Served(net, trace, steps, a, lo, hi)
  {
  }

  lemma StillDelivered(net: Network, trace: seq<State>, steps: seq<Step>, more: seq<State>, moreSteps: seq<Step>,
                       a: Address, i: nat, j: nat)
    requires WellWired(net) && IsRun(net, trace, steps) && IsRun(net, more, moreSteps) && a in net.peer
    requires GoesOn(trace, steps, more, moreSteps) && i < j < |steps|
    requires SentAndDelivered(net, trace, steps, a, i, j)
    ensures SentAndDelivered(net, more, moreSteps, a, i, j)
  {
    assert Taken(net, more[i], moreSteps[i], more[i + 1]);
  }

  // One interface sends, and is heard at once.
  lemma ServeOne(net: Network, trace: seq<State>, steps: seq<Step>, a: Address, now: int)
      returns (more: seq<State>, moreSteps: seq<Step>)
    requires WellWired(net) && IsRun(net, trace, steps) && NothingExpires(trace, steps, |steps|) && a in net.peer
    ensures IsRun(net, more, moreSteps) && GoesOn(trace, steps, more, moreSteps)
    ensures Served(net, more, moreSteps, a, |trace| - 1, |more| - 1)
  {
    var n := |steps|;
    var s := trace[n];
    RunIsLoopFree(net, trace, steps, n);
    SendAlwaysEnabled(net, s, a);
    var sent := Apply(net, s, Send(a));
    OneStepMore(net, trace, steps, Send(a));
    var m := MessageFrom(net, s, a);
    assert m in sent.flight && m.from == a;
    var heard := Apply(net, sent, Deliver(m, now));
    OneStepMore(net, trace + [sent], steps + [Send(a)], Deliver(m, now));
    more, moreSteps := trace + [sent] + [heard], steps + [Send(a)] + [Deliver(m, now)];
    assert Taken(net, more[n], moreSteps[n], more[n + 1]);
    assert SentAndDelivered(net, more, moreSteps, a, n, n + 1);
  }

  lemma NothingExpiresOn(trace: seq<State>, steps: seq<Step>, more: seq<State>, moreSteps: seq<Step>)
    requires |trace| == |steps| + 1 && |more| == |moreSteps| + 1
    requires NothingExpires(trace, steps, |steps|) && GoesOn(trace, steps, more, moreSteps)
    ensures NothingExpires(more, moreSteps, |moreSteps|)
  {
    forall i | 0 <= i < |moreSteps| && moreSteps[i].Expire? ensures more[i + 1] == more[i] {
      assert i < |steps| && moreSteps[i] == steps[i] && more[i] == trace[i] && more[i + 1] == trace[i + 1];
    }
  }

  lemma {:induction false} ServeAll(
      net: Network, trace: seq<State>, steps: seq<Step>, addresses: set<Address>, now: int)
      returns (more: seq<State>, moreSteps: seq<Step>)
    requires WellWired(net) && IsRun(net, trace, steps) && NothingExpires(trace, steps, |steps|)
    requires addresses <= net.peer.Keys
    ensures IsRun(net, more, moreSteps) && GoesOn(trace, steps, more, moreSteps)
    ensures forall a {:trigger Served(net, more, moreSteps, a, |trace| - 1, |more| - 1)} ::
      a in addresses ==> Served(net, more, moreSteps, a, |trace| - 1, |more| - 1)
    decreases addresses
  {
    hide Served, SentAndDelivered, WellWired, NothingExpires;
    if addresses == {} {
      more, moreSteps := trace, steps;
    } else {
      var b :| b in addresses;
      var some, someSteps := ServeAll(net, trace, steps, addresses - {b}, now);
      NothingExpiresOn(trace, steps, some, someSteps);
      more, moreSteps := ServeOne(net, some, someSteps, b, now);
      ServedSince(net, more, moreSteps, b, |trace| - 1, |some| - 1, |more| - 1);
      forall a | a in addresses ensures Served(net, more, moreSteps, a, |trace| - 1, |more| - 1) {
        if a != b {
          var i, j := DeliveryWithin(net, some, someSteps, a, |trace| - 1, |some| - 1);
          StillDelivered(net, some, someSteps, more, moreSteps, a, i, j);
          DeliveryServes(net, more, moreSteps, a, |trace| - 1, |more| - 1, i, j);
        }
      }
    }
  }

  lemma ServedSince(net: Network, trace: seq<State>, steps: seq<Step>, a: Address, from: nat, lo: nat, hi: nat)
    requires WellWired(net) && IsRun(net, trace, steps) && a in net.peer && from <= lo <= hi < |trace|
    requires Served(net, trace, steps, a, lo, hi)
    ensures Served(net, trace, steps, a, from, hi)
  {
    var i, j := DeliveryWithin(net, trace, steps, a, lo, hi);
  }

  // Rounds that were, still are.
  lemma StillRounds(net: Network, trace: seq<State>, steps: seq<Step>, more: seq<State>, moreSteps: seq<Step>,
                    cuts: seq<nat>)
    requires WellWired(net) && IsRun(net, trace, steps) && IsRun(net, more, moreSteps)
    requires GoesOn(trace, steps, more, moreSteps) && Rounds(net, trace, steps, cuts)
    ensures Rounds(net, more, moreSteps, cuts)
  {
    forall k | 0 < k < |cuts| ensures RoundAt(net, more, moreSteps, cuts, k) {
      assert RoundAt(net, trace, steps, cuts, k);
      forall a | a in net.peer ensures Served(net, more, moreSteps, a, cuts[k - 1], cuts[k]) {
        assert Served(net, trace, steps, a, cuts[k - 1], cuts[k]);
        var i, j :| cuts[k - 1] <= i < j < cuts[k] && SentAndDelivered(net, trace, steps, a, i, j);
        StillDelivered(net, trace, steps, more, moreSteps, a, i, j);
      }
    }
  }

  lemma WithoutExpiryIsTimely(net: Network, trace: seq<State>, steps: seq<Step>)
    requires WellWired(net) && IsRun(net, trace, steps) && forall i :: 0 <= i < |steps| ==> !steps[i].Expire?
    ensures NothingExpires(trace, steps, |steps|) && Timely(net, trace, steps)
  {
  }

  /** Whatever the network, it can go through k rounds from its start, so that convergence is never promised for
      nothing. */
  lemma {:induction false} RoundsAlwaysPossible(net: Network, s: State, k: nat, now: int)
      returns (trace: seq<State>, steps: seq<Step>, cuts: seq<nat>)
    requires WellWired(net) && IsInitial(net, s)
    ensures IsRun(net, trace, steps) && trace[0] == s
    ensures Rounds(net, trace, steps, cuts) && |cuts| == k + 1 && cuts[k] == |steps|
    ensures forall i :: 0 <= i < |steps| ==> !steps[i].Expire?
    ensures NothingExpires(trace, steps, |steps|) && Timely(net, trace, steps)
  {
    if k == 0 {
      trace, steps, cuts := [s], [], [0];
    } else {
      hide Rounds, Served, WellWired, NothingExpires, IsInitial, Timely;
      var before, beforeSteps, earlier := RoundsAlwaysPossible(net, s, k - 1, now);
      trace, steps := ServeAll(net, before, beforeSteps, net.peer.Keys, now);
      assert |beforeSteps| == |before| - 1 && |steps| == |trace| - 1;
      forall a | a in net.peer ensures Served(net, trace, steps, a, |beforeSteps|, |steps|) {
        assert Served(net, trace, steps, a, |before| - 1, |trace| - 1);
      }
      StillRounds(net, before, beforeSteps, trace, steps, earlier);
      cuts := earlier + [|steps|];
      OneRoundMore(net, trace, steps, earlier, |steps|);
      WithoutExpiryIsTimely(net, trace, steps);
    }
  }

  lemma OneRoundMore(net: Network, trace: seq<State>, steps: seq<Step>, cuts: seq<nat>, hi: nat)
    requires WellWired(net) && IsRun(net, trace, steps) && Rounds(net, trace, steps, cuts) && cuts != []
    requires cuts[|cuts| - 1] <= hi < |trace| && Round(net, trace, steps, cuts[|cuts| - 1], hi)
    ensures Rounds(net, trace, steps, cuts + [hi])
  {
    var more := cuts + [hi];
    forall k | 0 < k < |more| ensures RoundAt(net, trace, steps, more, k) {
      if k < |cuts| {
        assert RoundAt(net, trace, steps, cuts, k);
      }
    }
  }
}
