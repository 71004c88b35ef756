/**
 * `minimize_dfa` assembled from its parts (lines 43-82), and the script's
 * reduction of an automaton: prune, then minimize (lines 156-161).
 */
module Minimizer {
  import opened Automaton
  import opened Reachability
  import opened Partition
  import opened Naming
  import opened Rewrite

  /**
   * The key whose lookup in the state map fails first: an endpoint of a
   * transition (lines 73-74), else the initial state (line 79).
   */
  function MissingKey(ts: seq<Transition>, initial: string, keys: set<string>): (r: Option<string>)
    ensures r == None <==> initial in keys && forall t :: t in ts ==> t.source in keys && t.destination in keys
    ensures r.Some? ==> r.value !in keys
  {
    var e := MissingEndpoint(ts, keys);
    if e.Some? then e
    else if initial in keys then None
    else Some(initial)
  }

  /** Every state of `d` is reached from its initial state. */
  ghost predicate AllReachable(d: Minimized)
  {
    forall s :: s in d.states ==> Reachable(d.transitions, d.initial, s)
  }

  /** What the refinement loop leaves: a stable partition of `u` into blocks that are all final or all not. */
  ghost predicate StablePartition(ts: seq<Transition>, p: seq<set<string>>, u: set<string>, finals: set<string>)
  {
    Disjoint(p) && AllNonEmpty(p) && Covers(p, u) && Homogeneous(p, finals) && Stable(ts, p)
  }

  /** `name` is a final state of `d` that its initial state does not reach. */
  ghost predicate UnreachableFinal(d: Minimized, name: string)
  {
    name in d.states && name in d.finals && !Reachable(d.transitions, d.initial, name)
  }

  /** The automaton lines 68-80 build from a partition. */
  function Assemble(p: seq<set<string>>, finals: set<string>, ts: seq<Transition>, initial: string): (d: Minimized)
    requires initial in StateMap(p) && finals <= StateMap(p).Keys
    requires forall t :: t in ts ==> t.source in StateMap(p) && t.destination in StateMap(p)
    ensures |d.states| == |p| && |d.finals| <= |finals| && |d.transitions| <= |ts|
  {
    var m := StateMap(p);
    Minimized(NewStates(p), m[initial], NewFinals(m, finals), Dedup(Images(ts, m)))
  }

  /** Every name the assembled automaton uses is one of its states. */
  lemma AssembledIsWellFormed(p: seq<set<string>>, u: set<string>, finals: set<string>, ts: seq<Transition>, initial: string)
    requires Disjoint(p) && Covers(p, u) && finals <= u && initial in u
    requires forall t :: t in ts ==> t.source in u && t.destination in u
    ensures StateMap(p).Keys == u
    ensures WellFormed(Assemble(p, finals, ts, initial))
  {
    StateMapDomain(p, u);
    MapsIntoNewStates(p, u, initial);
    FinalNamesAreStates(p, u, finals);
    ImagesAreBetweenStates(p, u, ts);
  }

  /** The renamed final states are new states. */
  lemma FinalNamesAreStates(p: seq<set<string>>, u: set<string>, finals: set<string>)
    requires Disjoint(p) && Covers(p, u) && finals <= u
    ensures finals <= StateMap(p).Keys
    ensures forall f :: f in NewFinals(StateMap(p), finals) ==> f in NewStates(p)
  {
    StateMapDomain(p, u);
    forall f | f in NewFinals(StateMap(p), finals) ensures f in NewStates(p) {
      var g :| g in finals && StateMap(p)[g] == f;
      MapsIntoNewStates(p, u, g);
    }
  }

  /** The rewritten transitions run between new states. */
  lemma ImagesAreBetweenStates(p: seq<set<string>>, u: set<string>, ts: seq<Transition>)
    requires Disjoint(p) && Covers(p, u)
    requires forall t :: t in ts ==> t.source in u && t.destination in u
    ensures StateMap(p).Keys == u
    ensures forall t :: t in Dedup(Images(ts, StateMap(p))) ==> t.source in NewStates(p) && t.destination in NewStates(p)
  {
    StateMapDomain(p, u);
    var images := Images(ts, StateMap(p));
    forall t | t in Dedup(images) ensures t.source in NewStates(p) && t.destination in NewStates(p) {
      var k :| 0 <= k < |images| && images[k] == t;
      assert ts[k] in ts;
      MapsIntoNewStates(p, u, ts[k].source);
      MapsIntoNewStates(p, u, ts[k].destination);
    }
  }

  /**
   * `minimize_dfa`: refine the final/non-final split to a stable partition,
   * name its blocks and rewrite the automaton through the state map. The
   * initial state, a global of the script, is a parameter here. A state the
   * partition does not hold raises KeyError.
   */
  method MinimizeDfa(states: set<string>, finals: set<string>, ts: seq<Transition>, initial: string)
    returns (r: Outcome<Minimized>, ghost p: seq<set<string>>)
    ensures StablePartition(ts, p, states + finals, finals) && SplitsInitial(p, states, finals)
    ensures Coarsest(ts, p, states + finals, states, finals)
    ensures |p| <= |states + finals|
    ensures StateMap(p).Keys == states + finals
    ensures MissingKey(ts, initial, states + finals).Some? ==>
      r == KeyError(MissingKey(ts, initial, states + finals).value)
    ensures MissingKey(ts, initial, states + finals) == None ==> r == Ok(Assemble(p, finals, ts, initial))
    ensures r.Ok? ==> WellFormed(r.value)
  {
    var partition;
    ghost var rounds;
    partition, rounds := RefinePartition(states, finals, ts);
    p := partition;
    StateMapDomain(p, states + finals);
    var m := StateMap(partition);
    var rewritten := RewriteTransitions(ts, m);
    if rewritten.KeyError? {
      return KeyError(rewritten.key), p;
    }
    if initial !in m {
      return KeyError(initial), p;
    }
    r := Ok(Minimized(NewStates(partition), m[initial], NewFinals(m, finals), rewritten.value));
    AssembledIsWellFormed(p, states + finals, finals, ts, initial);
  }

  /**
   * The script's reduction as written (lines 156-161): prune, then minimize
   * the reachable part with the final states as read, unreachable ones
   * included. It cannot raise KeyError.
   */
  method ReduceDfa(states: seq<string>, initial: string, finals: set<string>, ts: seq<Transition>)
    returns (d: Minimized, reachable: set<string>, kept: seq<Transition>, ghost p: seq<set<string>>)
    ensures initial in reachable
    ensures forall s {:trigger Reachable(ts, initial, s)} :: s in reachable <==> Reachable(ts, initial, s)
    ensures kept == KeepReachable(ts, reachable)
    ensures StablePartition(kept, p, reachable + finals, finals) && SplitsInitial(p, reachable, finals)
    ensures Coarsest(kept, p, reachable + finals, reachable, finals)
    ensures StateMap(p).Keys == reachable + finals
    ensures d == Assemble(p, finals, kept, initial)
    ensures WellFormed(d)
  {
    reachable, kept := RemoveUnreachableStates(states, initial, ts);
    var r;
    r, p := MinimizeDfa(reachable, finals, kept, initial);
    PrunedKeysPresent(ts, reachable, kept, initial, reachable + finals);
    d := r.value;
  }

  /**
   * The reduction with only the reachable final states passed on. Every
   * state of the result is reachable from its initial state.
   */
  method ReduceDfaPruned(states: seq<string>, initial: string, finals: set<string>, ts: seq<Transition>)
    returns (d: Minimized, reachable: set<string>, kept: seq<Transition>, ghost p: seq<set<string>>)
    ensures initial in reachable
    ensures forall s {:trigger Reachable(ts, initial, s)} :: s in reachable <==> Reachable(ts, initial, s)
    ensures kept == KeepReachable(ts, reachable)
    ensures StablePartition(kept, p, reachable, finals * reachable) && SplitsInitial(p, reachable, finals * reachable)
    ensures Coarsest(kept, p, reachable, reachable, finals * reachable)
    ensures StateMap(p).Keys == reachable
    ensures d == Assemble(p, finals * reachable, kept, initial)
    ensures WellFormed(d)
    ensures AllReachable(d)
  {
    reachable, kept := RemoveUnreachableStates(states, initial, ts);
    var r;
    r, p := MinimizeDfa(reachable, finals * reachable, kept, initial);
    PrunedKeysPresent(ts, reachable, kept, initial, reachable + finals * reachable);
    d := r.value;
    AbsorbsPart(reachable, finals);
    NewStatesAreReachable(ts, initial, reachable, kept, p, reachable + finals * reachable, finals * reachable);
  }

  /** After pruning, every lookup `minimize_dfa` makes on a superset of the reached states succeeds. */
  lemma PrunedKeysPresent(ts: seq<Transition>, reachable: set<string>, kept: seq<Transition>, initial: string, keys: set<string>)
    requires initial in reachable && reachable <= keys
    requires kept == KeepReachable(ts, reachable)
    ensures MissingKey(kept, initial, keys) == None
  {
  }

  /** A set absorbs its own intersection with another. */
  lemma AbsorbsPart(a: set<string>, b: set<string>)
    ensures a + b * a == a && b * a <= a
  {
  }

  /**
   * When the partition covers exactly the reachable states, every block name
   * is reached from the initial state's name along the rewritten transitions.
   */
  lemma NewStatesAreReachable(ts: seq<Transition>, initial: string, reachable: set<string>, kept: seq<Transition>,
                              p: seq<set<string>>, u: set<string>, finals: set<string>)
    requires initial in reachable && u == reachable && finals <= u
    requires forall s {:trigger Reachable(ts, initial, s)} :: s in reachable <==> Reachable(ts, initial, s)
    requires kept == KeepReachable(ts, reachable)
    requires StablePartition(kept, p, u, finals)
    ensures StateMap(p).Keys == u
    ensures AllReachable(Assemble(p, finals, kept, initial))
  {
    StateMapDomain(p, reachable);
    var m := StateMap(p);
    PruningIsIdempotent(ts, initial, reachable);
    forall name | name in NewStates(p) ensures Reachable(Dedup(Images(kept, m)), m[initial], name) {
      var i :| 0 <= i < |p| && NewStates(p)[i] == name;
      var s :| s in p[i];
      StateMapNamesBlock(p, i, s);
      ImageReachable(kept, m, initial, s, name);
    }
  }

  /** A walk that starts among `keys`, along transitions between keys, stays among them. */
  lemma PathInside(ts: seq<Transition>, keys: set<string>, path: seq<string>)
    requires IsPath(ts, path) && path[0] in keys
    requires forall t :: t in ts ==> t.source in keys && t.destination in keys
    ensures forall k :: 0 <= k < |path| ==> path[k] in keys
  {
    forall k | 0 < k < |path| ensures path[k] in keys {
      assert Step(ts, path[k - 1], path[k]);
    }
  }

  /** A step along `ts` is a step along the rewritten transitions. */
  lemma StepImage(ts: seq<Transition>, m: map<string, string>, a: string, b: string)
    requires forall t :: t in ts ==> t.source in m && t.destination in m
    requires Step(ts, a, b) && a in m && b in m
    ensures Step(Dedup(Images(ts, m)), m[a], m[b])
  {
    var t :| t in ts && t.source == a && t.destination == b;
    var j :| 0 <= j < |ts| && ts[j] == t;
    assert Images(ts, m)[j] == Image(m, t);
    assert Image(m, t) in Dedup(Images(ts, m));
  }

  /**
   * Along transitions between keys of `m`, whatever `a` reaches, the image
   * of `a` reaches the image of it along the rewritten transitions.
   */
  lemma ImageReachable(ts: seq<Transition>, m: map<string, string>, a: string, b: string, name: string)
    requires forall t :: t in ts ==> t.source in m && t.destination in m
    requires a in m && b in m && Reachable(ts, a, b) && m[b] == name
    ensures Reachable(Dedup(Images(ts, m)), m[a], name)
  {
    var path :| IsPath(ts, path) && path[0] == a && path[|path| - 1] == b;
    var mapped := MapPath(ts, m, path);
    assert mapped[0] == m[a] && mapped[|mapped| - 1] == name;
  }

  /** A walk among keys of `m`, renamed through `m`, is a walk along the rewritten transitions. */
  lemma MapPath(ts: seq<Transition>, m: map<string, string>, path: seq<string>) returns (mapped: seq<string>)
    requires forall t :: t in ts ==> t.source in m && t.destination in m
    requires IsPath(ts, path) && path[0] in m
    ensures |mapped| == |path| && forall k :: 0 <= k < |path| ==> path[k] in m && mapped[k] == m[path[k]]
    ensures IsPath(Dedup(Images(ts, m)), mapped)
  {
    PathInside(ts, m.Keys, path);
    mapped := seq(|path|, k requires 0 <= k < |path| => m[path[k]]);
    forall k | 0 <= k < |mapped| - 1 ensures Step(Dedup(Images(ts, m)), mapped[k], mapped[k + 1]) {
      StepImage(ts, m, path[k], path[k + 1]);
    }
  }

  /**
   * The as-written reduction keeps an unreachable final state: with states
   * A and B, initial state A, final state B and no transitions, every result
   * `ReduceDfa` can return has a final state qB that its initial state qA
   * does not reach.
   */
  lemma UnreachableFinalSurvives(reachable: set<string>, p: seq<set<string>>)
    requires "A" in reachable
    requires forall s {:trigger Reachable([], "A", s)} :: s in reachable <==> Reachable([], "A", s)
    requires Disjoint(p) && Covers(p, reachable + {"B"}) && Homogeneous(p, {"B"})
    requires StateMap(p).Keys == reachable + {"B"}
    ensures UnreachableFinal(Assemble(p, {"B"}, KeepReachable([], reachable), "A"), "qB")
  {
    ReachedWithoutTransitions(reachable, "A");
    ExampleResult(reachable, p);
  }

  /** The example once its reachable set is known. */
  lemma ExampleResult(reachable: set<string>, p: seq<set<string>>)
    requires reachable == {"A"}
    requires Disjoint(p) && Covers(p, reachable + {"B"}) && Homogeneous(p, {"B"})
    requires StateMap(p).Keys == reachable + {"B"}
    ensures UnreachableFinal(Assemble(p, {"B"}, KeepReachable([], reachable), "A"), "qB")
  {
    assert reachable + {"B"} == {"A", "B"};
    ExampleBlockNames(p);
    assert "B" in {"B"};
    var d := Assemble(p, {"B"}, KeepReachable([], reachable), "A");
    assert d.initial == "qA" && d.transitions == [];
    if Reachable(d.transitions, d.initial, "qB") {
      OnlyStartWithoutTransitions("qA", "qB");
    }
  }

  /** Without transitions, the reachable set is the initial state alone. */
  lemma ReachedWithoutTransitions(reachable: set<string>, init: string)
    requires init in reachable
    requires forall s {:trigger Reachable([], init, s)} :: s in reachable <==> Reachable([], init, s)
    ensures reachable == {init}
  {
    forall s | s in reachable ensures s == init {
      OnlyStartWithoutTransitions(init, s);
    }
  }

  /** Without transitions, a state reaches only itself. */
  lemma OnlyStartWithoutTransitions(init: string, s: string)
    requires Reachable([], init, s)
    ensures s == init
  {
    var path :| IsPath([], path) && path[0] == init && path[|path| - 1] == s;
    assert |path| < 2 || Step([], path[0], path[1]);
    assert forall a, b :: !Step([], a, b);
  }

  /** The only homogeneous partition of {A, B} with final state B names them qA and qB. */
  lemma ExampleBlockNames(p: seq<set<string>>)
    requires Disjoint(p) && Covers(p, {"A", "B"}) && Homogeneous(p, {"B"})
    ensures "A" in StateMap(p) && StateMap(p)["A"] == "qA"
    ensures "B" in StateMap(p) && StateMap(p)["B"] == "qB" && "qB" in NewStates(p)
  {
    var ib := GetBlock(p, "B");
    var ia := GetBlock(p, "A");
    assert p[ib] == {"B"} by {
      assert p[ib] <= {"A", "B"} && p[ib] <= {"B"};
    }
    assert p[ia] == {"A"} by {
      assert p[ia] <= {"A", "B"} && p[ia] !! {"B"};
    }
    SingletonName("A");
    SingletonName("B");
    StateMapNamesBlock(p, ib, "B");
    StateMapNamesBlock(p, ia, "A");
  }
}
