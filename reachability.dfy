/**
 * Pruning of the states that cannot be reached from the initial state:
 * a depth-first search with an explicit stack, then a filter of the
 * transition list.
 */
module Reachability {
  import opened Automaton

  /** Some transition of `ts` leads from `a` to `b`. */
  ghost predicate Step(ts: seq<Transition>, a: string, b: string)
  {
    exists t :: t in ts && t.source == a && t.destination == b
  }

  /** `path` is a non-empty walk along the transitions of `ts`. */
  ghost predicate IsPath(ts: seq<Transition>, path: seq<string>)
  {
    |path| > 0 && forall k :: 0 <= k < |path| - 1 ==> Step(ts, path[k], path[k + 1])
  }

  /** `s` is reached from `init` by zero or more transitions. */
  ghost predicate Reachable(ts: seq<Transition>, init: string, s: string)
  {
    exists path :: IsPath(ts, path) && path[0] == init && path[|path| - 1] == s
  }

  /** No transition leaves `r`. */
  ghost predicate Closed(ts: seq<Transition>, r: set<string>)
  {
    forall t :: t in ts && t.source in r ==> t.destination in r
  }

  lemma ReachableFromItself(ts: seq<Transition>, init: string)
    ensures Reachable(ts, init, init)
  {
    assert IsPath(ts, [init]);
  }

  lemma ReachableStep(ts: seq<Transition>, init: string, t: Transition)
    requires t in ts && Reachable(ts, init, t.source)
    ensures Reachable(ts, init, t.destination)
  {
    var path :| IsPath(ts, path) && path[0] == init && path[|path| - 1] == t.source;
    var longer := path + [t.destination];
    assert Step(ts, longer[|path| - 1], longer[|path|]);
    assert IsPath(ts, longer);
  }

  /** Every state on a walk that starts inside a closed set stays inside it. */
  lemma {:induction false} PathStaysInside(ts: seq<Transition>, r: set<string>, path: seq<string>, k: nat)
    requires IsPath(ts, path) && path[0] in r && Closed(ts, r)
    requires k < |path|
    ensures path[k] in r
  {
    if k > 0 {
      PathStaysInside(ts, r, path, k - 1);
      assert Step(ts, path[k - 1], path[k]);
    }
  }

  /** A closed set holding `init` holds every state reachable from `init`. */
  lemma ClosedHoldsReachable(ts: seq<Transition>, init: string, r: set<string>, s: string)
    requires init in r && Closed(ts, r) && Reachable(ts, init, s)
    ensures s in r
  {
    var path :| IsPath(ts, path) && path[0] == init && path[|path| - 1] == s;
    PathStaysInside(ts, r, path, |path| - 1);
  }

  /**
   * The filter of line 39: the transitions whose two endpoints are in `r`,
   * in their original order and with their original multiplicities.
   */
  function KeepReachable(ts: seq<Transition>, r: set<string>): (kept: seq<Transition>)
    ensures forall t :: t in kept <==> t in ts && t.source in r && t.destination in r
    ensures IsSubsequence(kept, ts)
    ensures forall t: Transition :: t.source in r && t.destination in r ==> multiset(kept)[t] == multiset(ts)[t]
    ensures forall t: Transition :: t.source !in r || t.destination !in r ==> multiset(kept)[t] == 0
  {
    if ts == [] then []
    else
      var rest := KeepReachable(ts[1..], r);
      assert ts == [ts[0]] + ts[1..];
      if ts[0].source in r && ts[0].destination in r then [ts[0]] + rest else rest
  }

  /**
   * The destinations the inner loop of lines 35-37 pushes for `state`: those
   * of its outgoing transitions, in list order, that are not yet in `r`.
   */
  function Unvisited(ts: seq<Transition>, state: string, r: set<string>): (pushed: seq<string>)
    ensures |pushed| <= |ts|
    ensures forall x :: x in pushed ==> x !in r
  {
    if ts == [] then []
    else
      var last := ts[|ts| - 1];
      var front := Unvisited(ts[..|ts| - 1], state, r);
      if last.source == state && last.destination !in r then front + [last.destination] else front
  }

  /** What `Unvisited` pushes: exactly the successors of `state` outside `r`. */
  lemma {:induction false} UnvisitedMembers(ts: seq<Transition>, state: string, r: set<string>, x: string)
    ensures x in Unvisited(ts, state, r) <==> x !in r && exists t :: t in ts && t.source == state && t.destination == x
  {
    if ts != [] {
      var last := ts[|ts| - 1];
      UnvisitedMembers(ts[..|ts| - 1], state, r, x);
      assert forall t :: t in ts <==> t in ts[..|ts| - 1] || t == last by {
        assert ts == ts[..|ts| - 1] + [last];
      }
    }
  }

  /** The inner loop of lines 35-37: push the unvisited successors of `state`. */
  method PushSuccessors(ts: seq<Transition>, state: string, reachable: set<string>, stack: seq<string>)
    returns (pushed: seq<string>)
    ensures pushed == stack + Unvisited(ts, state, reachable)
  {
    pushed := stack;
    for i := 0 to |ts|
      invariant pushed == stack + Unvisited(ts[..i], state, reachable)
    {
      assert ts[..i + 1][..i] == ts[..i];
      if ts[i].source == state && ts[i].destination !in reachable {
        pushed := pushed + [ts[i].destination];
      }
    }
    assert ts[..|ts|] == ts;
  }

  /**
   * `remove_unreachable_states`: depth-first search from `initial` with an
   * explicit stack. `states` is accepted and never read, and `initial` is
   * not required to be one of them.
   */
  method RemoveUnreachableStates(states: seq<string>, initial: string, ts: seq<Transition>)
    returns (reachable: set<string>, kept: seq<Transition>)
    ensures initial in reachable
    ensures forall s {:trigger Reachable(ts, initial, s)} :: s in reachable <==> Reachable(ts, initial, s)
    ensures Closed(ts, reachable)
    ensures kept == KeepReachable(ts, reachable)
  {
    reachable := {};
    var stack := [initial];
    ghost var universe := {initial} + set t | t in ts :: t.destination;
    ReachableFromItself(ts, initial);
    while stack != []
      invariant Searching(ts, initial, universe, reachable, stack)
      decreases |universe - reachable|, |stack|
    {
      var state := stack[|stack| - 1];
      ghost var before := stack;
      stack := stack[..|stack| - 1];
      if state !in reachable {
        ghost var was := reachable;
        VisitState(ts, initial, universe, reachable, before);
        reachable := reachable + {state};
        assert universe - reachable < universe - was by {
          assert state in universe - was && state !in universe - reachable;
        }
        stack := PushSuccessors(ts, state, reachable, stack);
      } else {
        SkipState(ts, initial, universe, reachable, before);
      }
    }
    forall s | Reachable(ts, initial, s) ensures s in reachable {
      ClosedHoldsReachable(ts, initial, reachable, s);
    }
    kept := KeepReachable(ts, reachable);
  }

  /**
   * What the search keeps true: every visited or stacked state is reachable
   * and is the initial state or some destination, the initial state has been
   * visited or is stacked, and every transition out of a visited state leads
   * to a visited or stacked state.
   */
  ghost predicate Searching(ts: seq<Transition>, initial: string, universe: set<string>,
                            reachable: set<string>, stack: seq<string>)
  {
    && reachable <= universe
    && (forall x :: x in stack ==> x in universe && Reachable(ts, initial, x))
    && (forall x :: x in reachable ==> Reachable(ts, initial, x))
    && (initial in reachable || initial in stack)
    && (forall t :: t in ts && t.source in reachable ==> t.destination in reachable || t.destination in stack)
  }

  /** Popping a state already visited keeps the search invariant. */
  lemma SkipState(ts: seq<Transition>, initial: string, universe: set<string>,
                  reachable: set<string>, stack: seq<string>)
    requires Searching(ts, initial, universe, reachable, stack)
    requires stack != [] && stack[|stack| - 1] in reachable
    ensures Searching(ts, initial, universe, reachable, stack[..|stack| - 1])
  {
    PopMembers(stack);
  }

  /** The members of a non-empty stack are its top and the members below it. */
  lemma PopMembers(stack: seq<string>)
    requires stack != []
    ensures forall x :: x in stack <==> x in stack[..|stack| - 1] || x == stack[|stack| - 1]
  {
    assert stack == stack[..|stack| - 1] + [stack[|stack| - 1]];
  }

  /** Visiting a popped state and pushing its unvisited successors keeps the search invariant. */
  lemma VisitState(ts: seq<Transition>, initial: string, universe: set<string>,
                   reachable: set<string>, before: seq<string>)
    requires forall t :: t in ts ==> t.destination in universe
    requires Searching(ts, initial, universe, reachable, before)
    requires before != [] && before[|before| - 1] !in reachable
    ensures var state := before[|before| - 1];
      Searching(ts, initial, universe, reachable + {state},
                before[..|before| - 1] + Unvisited(ts, state, reachable + {state}))
  {
    var state, stack := before[|before| - 1], before[..|before| - 1];
    var r := reachable + {state};
    var pushed := Unvisited(ts, state, r);
    PopMembers(before);
    assert forall x :: x in stack + pushed <==> x in stack || x in pushed;
    forall x | x in pushed ensures x in universe && Reachable(ts, initial, x) {
      UnvisitedMembers(ts, state, r, x);
      var t :| t in ts && t.source == state && t.destination == x;
      ReachableStep(ts, initial, t);
    }
    forall t | t in ts && t.source == state ensures t.destination in r || t.destination in pushed {
      UnvisitedMembers(ts, state, r, t.destination);
    }
  }

  /**
   * Pruning an automaton that was already pruned changes nothing: from the
   * kept transitions the same states are reachable, and filtering them a
   * second time keeps all of them.
   */
  lemma PruningIsIdempotent(ts: seq<Transition>, init: string, r: set<string>)
    requires forall s {:trigger Reachable(ts, init, s)} :: s in r <==> Reachable(ts, init, s)
    ensures forall s :: Reachable(KeepReachable(ts, r), init, s) <==> s in r
    ensures KeepReachable(KeepReachable(ts, r), r) == KeepReachable(ts, r)
  {
    var kept := KeepReachable(ts, r);
    forall s | s in r ensures Reachable(kept, init, s) {
      assert Reachable(ts, init, s);
      var path :| IsPath(ts, path) && path[0] == init && path[|path| - 1] == s;
      forall k | 0 <= k < |path| ensures path[k] in r {
        var prefix := path[..k + 1];
        assert IsPath(ts, prefix) by {
          forall j | 0 <= j < |prefix| - 1 ensures Step(ts, prefix[j], prefix[j + 1]) {
            assert prefix[j] == path[j] && prefix[j + 1] == path[j + 1];
          }
        }
        assert Reachable(ts, init, path[k]);
      }
      forall k | 0 <= k < |path| - 1 ensures Step(kept, path[k], path[k + 1]) {
        assert Step(ts, path[k], path[k + 1]);
        var t :| t in ts && t.source == path[k] && t.destination == path[k + 1];
        assert t in kept;
      }
      assert IsPath(kept, path);
    }
    forall s | Reachable(kept, init, s) ensures s in r {
      var path :| IsPath(kept, path) && path[0] == init && path[|path| - 1] == s;
      forall k | 0 <= k < |path| - 1 ensures Step(ts, path[k], path[k + 1]) {
        assert Step(kept, path[k], path[k + 1]);
      }
      assert IsPath(ts, path);
      assert Reachable(ts, init, s);
    }
    FilterKeepsFiltered(ts, r);
  }

  lemma {:induction false} FilterKeepsFiltered(ts: seq<Transition>, r: set<string>)
    ensures KeepReachable(KeepReachable(ts, r), r) == KeepReachable(ts, r)
  {
    if ts != [] {
      FilterKeepsFiltered(ts[1..], r);
      var rest := KeepReachable(ts[1..], r);
      if ts[0].source in r && ts[0].destination in r {
        assert ([ts[0]] + rest)[1..] == rest;
      }
    }
  }
}
