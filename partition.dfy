/**
 * Moore-style partition refinement: the `while True` loop of `minimize_dfa`.
 * A partition is the list of blocks `partition`; a state's key is the list of
 * (label, index of the destination's block) over its outgoing transitions,
 * in transition-list order.
 */
module Partition {
  import opened Automaton

  /** `get_block`: the index of the first block holding `s`, or -1. */
  function GetBlock(p: seq<set<string>>, s: string): (i: int)
    ensures -1 <= i < |p|
    ensures i == -1 <==> forall j :: 0 <= j < |p| ==> s !in p[j]
    ensures i >= 0 ==> s in p[i] && forall j :: 0 <= j < i ==> s !in p[j]
  {
    if p == [] then -1
    else
      var front := GetBlock(p[..|p| - 1], s);
      if front >= 0 then front
      else if s in p[|p| - 1] then |p| - 1
      else -1
  }

  /** The grouping key of line 58. */
  function Key(ts: seq<Transition>, p: seq<set<string>>, s: string): seq<(string, int)>
  {
    if ts == [] then []
    else
      var last := ts[|ts| - 1];
      Key(ts[..|ts| - 1], p, s)
        + (if last.source == s then [(last.symbol, GetBlock(p, last.destination))] else [])
  }

  /** No state lies in two blocks. */
  ghost predicate Disjoint(p: seq<set<string>>)
  {
    forall i, j, s :: 0 <= i < |p| && 0 <= j < |p| && s in p[i] && s in p[j] ==> i == j
  }

  ghost predicate AllNonEmpty(p: seq<set<string>>)
  {
    forall i :: 0 <= i < |p| ==> p[i] != {}
  }

  /** The blocks of `p` hold exactly the states of `u`. */
  ghost predicate Covers(p: seq<set<string>>, u: set<string>)
  {
    && (forall i :: 0 <= i < |p| ==> p[i] <= u)
    && (forall s :: s in u ==> GetBlock(p, s) >= 0)
  }

  /** Every block is all final or all non-final. */
  ghost predicate Homogeneous(p: seq<set<string>>, finals: set<string>)
  {
    forall i :: 0 <= i < |p| ==> p[i] <= finals || p[i] !! finals
  }

  /** `c` is the set of states of `b` that share one key. */
  ghost predicate KeyClass(ts: seq<Transition>, p: seq<set<string>>, c: set<string>, b: set<string>)
  {
    c <= b && forall s, t :: s in c && t in b ==> (t in c <==> Key(ts, p, t) == Key(ts, p, s))
  }

  /** All states of one block have the same key. */
  ghost predicate Stable(ts: seq<Transition>, p: seq<set<string>>)
  {
    forall i, s, t :: 0 <= i < |p| && s in p[i] && t in p[i] ==> Key(ts, p, s) == Key(ts, p, t)
  }

  function NonEmptyCount(p: seq<set<string>>): (n: nat)
    ensures n <= |p|
    ensures AllNonEmpty(p) ==> n == |p|
  {
    if p == [] then 0
    else NonEmptyCount(p[..|p| - 1]) + (if p[|p| - 1] == {} then 0 else 1)
  }

  /** The pairs a key holds: one per outgoing transition of `s`. */
  lemma {:induction false} KeyMembers(ts: seq<Transition>, p: seq<set<string>>, s: string, a: string, b: int)
    ensures (a, b) in Key(ts, p, s) <==>
      exists t :: t in ts && t.source == s && t.symbol == a && GetBlock(p, t.destination) == b
  {
    if ts != [] {
      var last := ts[|ts| - 1];
      KeyMembers(ts[..|ts| - 1], p, s, a, b);
      assert forall t :: t in ts <==> t in ts[..|ts| - 1] || t == last by {
        assert ts == ts[..|ts| - 1] + [last];
      }
    }
  }

  /** Lines 44-45: the final states, then the other states. */
  function InitialPartition(states: set<string>, finals: set<string>): (p: seq<set<string>>)
    ensures |p| == 2
    ensures Disjoint(p) && Covers(p, states + finals) && Homogeneous(p, finals)
  {
    var p := [finals, states - finals];
    assert forall s :: s in states + finals ==> s in p[0] || s in p[1];
    p
  }

  /** Every block lies within the final states or within the other states. */
  ghost predicate SplitsInitial(p: seq<set<string>>, states: set<string>, finals: set<string>)
  {
    forall i :: 0 <= i < |p| ==> p[i] <= finals || p[i] <= states - finals
  }

  /** Disjoint blocks that are non-empty are no more numerous than their states. */
  lemma {:induction false} BlockCountBound(p: seq<set<string>>, u: set<string>)
    requires Disjoint(p)
    requires forall i :: 0 <= i < |p| ==> p[i] <= u
    ensures NonEmptyCount(p) <= |u|
  {
    if p != [] {
      var front, last := p[..|p| - 1], p[|p| - 1];
      forall i | 0 <= i < |front| ensures front[i] <= u - last {
        assert front[i] == p[i];
      }
      BlockCountBound(front, u - last);
      assert u == (u - last) + last;
    }
  }

  /**
   * Lines 56-62 for one block: group its states by key. The order in which
   * the set is walked is chosen freely; the dictionary keeps the keys in the
   * order they were first met, and its values become the pieces.
   */
  method SplitBlock(ts: seq<Transition>, p: seq<set<string>>, block: set<string>)
    returns (parts: seq<set<string>>)
    ensures AllNonEmpty(parts) && Disjoint(parts)
    ensures forall i :: 0 <= i < |parts| ==> KeyClass(ts, p, parts[i], block)
    ensures forall s :: s in block ==> GetBlock(parts, s) >= 0
    ensures block == {} ==> parts == []
  {
    var remaining := block;
    var order: seq<seq<(string, int)>> := [];
    var groups: map<seq<(string, int)>, set<string>> := map[];
    while remaining != {}
      invariant Grouped(ts, p, block, remaining, order, groups)
      decreases remaining
    {
      var s :| s in remaining;
      var key := Key(ts, p, s);
      GroupStep(ts, p, block, remaining, order, groups, s);
      if key !in groups {
        groups := groups[key := {}];
        order := order + [key];
      }
      groups := groups[key := groups[key] + {s}];
      remaining := remaining - {s};
    }
    parts := seq(|order|, i requires 0 <= i < |order| => groups[order[i]]);
    GroupsArePieces(ts, p, block, order, groups, parts);
  }

  /**
   * What the walk over `block` keeps true: `order` lists the dictionary's keys
   * once each, in insertion order, and each key holds exactly the states
   * already walked that have that key.
   */
  ghost predicate Grouped(ts: seq<Transition>, p: seq<set<string>>, block: set<string>, remaining: set<string>,
                          order: seq<seq<(string, int)>>, groups: map<seq<(string, int)>, set<string>>)
  {
    && remaining <= block
    && (forall k :: k in groups <==> k in order)
    && (forall a, b :: 0 <= a < b < |order| ==> order[a] != order[b])
    && (forall k, s :: k in groups ==> (s in groups[k] <==> s in block && s !in remaining && Key(ts, p, s) == k))
    && (forall k :: k in groups ==> groups[k] != {})
    && (forall s :: s in block && s !in remaining ==> Key(ts, p, s) in groups)
    && (block == {} ==> order == [])
  }

  /** Adding one more state to the dictionary (lines 58-61) keeps the walk's invariant. */
  lemma GroupStep(ts: seq<Transition>, p: seq<set<string>>, block: set<string>, remaining: set<string>,
                  order: seq<seq<(string, int)>>, groups: map<seq<(string, int)>, set<string>>, s: string)
    requires Grouped(ts, p, block, remaining, order, groups) && s in remaining
    ensures var key := Key(ts, p, s);
      var order' := if key in groups then order else order + [key];
      var groups' := if key in groups then groups else groups[key := {}];
      Grouped(ts, p, block, remaining - {s}, order', groups'[key := groups'[key] + {s}])
  {
    var key := Key(ts, p, s);
    if key in groups {
      JoinGroup(ts, p, block, remaining, order, groups, s, key);
    } else {
      OpenGroup(ts, p, block, remaining, order, groups, s, key);
    }
  }

  /** A state whose key is already listed joins that key's group. */
  lemma JoinGroup(ts: seq<Transition>, p: seq<set<string>>, block: set<string>, remaining: set<string>,
                  order: seq<seq<(string, int)>>, groups: map<seq<(string, int)>, set<string>>, s: string,
                  key: seq<(string, int)>)
    requires Grouped(ts, p, block, remaining, order, groups) && s in remaining
    requires key == Key(ts, p, s) && key in groups
    ensures Grouped(ts, p, block, remaining - {s}, order, groups[key := groups[key] + {s}])
  {
  }

  /** A state with a new key opens a group, and the key is listed last. */
  lemma OpenGroup(ts: seq<Transition>, p: seq<set<string>>, block: set<string>, remaining: set<string>,
                  order: seq<seq<(string, int)>>, groups: map<seq<(string, int)>, set<string>>, s: string,
                  key: seq<(string, int)>)
    requires Grouped(ts, p, block, remaining, order, groups) && s in remaining
    requires key == Key(ts, p, s) && key !in groups
    ensures Grouped(ts, p, block, remaining - {s}, order + [key], groups[key := {s}])
  {
    var order' := order + [key];
    forall k ensures k in order' <==> k in order || k == key {
      assert k in order' <==> k in order || k == key;
    }
    forall a, b | 0 <= a < b < |order'| ensures order'[a] != order'[b] {
      if b == |order| {
        assert order[a] in order;
      }
    }
  }

  /** The dictionary's values, in key order, are the key classes of `block`. */
  lemma GroupsArePieces(ts: seq<Transition>, p: seq<set<string>>, block: set<string>,
                        order: seq<seq<(string, int)>>, groups: map<seq<(string, int)>, set<string>>,
                        parts: seq<set<string>>)
    requires forall k :: k in groups <==> k in order
    requires forall a, b :: 0 <= a < b < |order| ==> order[a] != order[b]
    requires forall k, s :: k in groups ==> (s in groups[k] <==> s in block && Key(ts, p, s) == k)
    requires forall k :: k in groups ==> groups[k] != {}
    requires forall s :: s in block ==> Key(ts, p, s) in groups
    requires |parts| == |order| && forall i :: 0 <= i < |order| ==> parts[i] == groups[order[i]]
    ensures AllNonEmpty(parts) && Disjoint(parts)
    ensures forall i :: 0 <= i < |parts| ==> KeyClass(ts, p, parts[i], block)
    ensures forall s :: s in block ==> GetBlock(parts, s) >= 0
  {
    forall a, b, s | 0 <= a < |parts| && 0 <= b < |parts| && s in parts[a] && s in parts[b]
      ensures a == b
    {
      assert order[a] == Key(ts, p, s) == order[b];
    }
    forall i | 0 <= i < |parts| ensures KeyClass(ts, p, parts[i], block) {
      assert order[i] in groups;
    }
    forall s | s in block ensures GetBlock(parts, s) >= 0 {
      var i :| 0 <= i < |order| && order[i] == Key(ts, p, s);
      assert s in parts[i];
    }
  }

  /** Block `i` of `np` is the key class of block `origin[i] < j` of `p`. */
  ghost predicate PiecesOf(ts: seq<Transition>, p: seq<set<string>>, np: seq<set<string>>, origin: seq<int>, j: nat)
  {
    |origin| == |np| && j <= |p| &&
    forall i :: 0 <= i < |np| ==> 0 <= origin[i] < j && KeyClass(ts, p, np[i], p[origin[i]])
  }

  /** Every state of the first `j` blocks of `p` lies in some block of `np`. */
  ghost predicate SpreadOver(p: seq<set<string>>, np: seq<set<string>>, j: nat)
  {
    forall jj, s :: 0 <= jj < j && jj < |p| && s in p[jj] ==> GetBlock(np, s) >= 0
  }

  /**
   * One round (lines 54-62): split every block by key and concatenate the
   * pieces. `origin[i]` is the index of the old block that piece `i` comes from.
   */
  method RefineRound(ts: seq<Transition>, p: seq<set<string>>) returns (np: seq<set<string>>, ghost origin: seq<int>)
    ensures AllNonEmpty(np)
    ensures PiecesOf(ts, p, np, origin, |p|)
    ensures forall j, s :: 0 <= j < |p| && s in p[j] ==> GetBlock(np, s) >= 0
    ensures Disjoint(p) ==> Disjoint(np)
    ensures Disjoint(p) ==> SplitByKeys(ts, p, np)
    ensures |np| >= NonEmptyCount(p)
    ensures |np| == NonEmptyCount(p) == |p| ==> np == p
  {
    np := [];
    origin := [];
    for j := 0 to |p|
      invariant RoundSoFar(ts, p, np, origin, j)
    {
      var parts := SplitBlock(ts, p, p[j]);
      AppendBlock(ts, p, j, np, origin, parts);
      np := np + parts;
      origin := origin + seq(|parts|, _ => j);
    }
    RoundDone(ts, p, np, origin);
  }

  /**
   * Two states share a block of `np` exactly when they shared a block of `p`
   * and have the same key.
   */
  ghost predicate SplitByKeys(ts: seq<Transition>, p: seq<set<string>>, np: seq<set<string>>)
  {
    forall i, s, t :: 0 <= i < |np| && s in np[i] ==>
        (t in np[i] <==> GetBlock(p, t) == GetBlock(p, s) && Key(ts, p, t) == Key(ts, p, s))
  }

  /** What the loop of one round has built after the first `j` blocks of `p`. */
  ghost predicate RoundSoFar(ts: seq<Transition>, p: seq<set<string>>, np: seq<set<string>>, origin: seq<int>, j: nat)
  {
    && AllNonEmpty(np)
    && PiecesOf(ts, p, np, origin, j)
    && SpreadOver(p, np, j)
    && (Disjoint(p) ==> Disjoint(np))
    && |np| >= NonEmptyCount(p[..j])
    && (|np| == NonEmptyCount(p[..j]) == j ==> np == p[..j])
  }

  /** Appending the pieces of block `j` extends the round by one block. */
  lemma AppendBlock(ts: seq<Transition>, p: seq<set<string>>, j: nat, np: seq<set<string>>, origin: seq<int>,
                    parts: seq<set<string>>)
    requires j < |p| && RoundSoFar(ts, p, np, origin, j)
    requires AllNonEmpty(parts) && Disjoint(parts)
    requires forall i :: 0 <= i < |parts| ==> KeyClass(ts, p, parts[i], p[j])
    requires forall s :: s in p[j] ==> GetBlock(parts, s) >= 0
    requires p[j] == {} ==> parts == []
    ensures RoundSoFar(ts, p, np + parts, origin + seq(|parts|, _ => j), j + 1)
  {
    var from := seq(|parts|, _ => j);
    AppendPieces(ts, p, j, np, origin, parts, from);
    AppendSpread(p, j, np, parts);
    if Disjoint(p) {
      AppendDisjoint(ts, p, j, np, origin, parts);
    }
    AppendCount(p, j, np, parts);
    AppendNonEmpty(np, parts);
  }

  lemma AppendNonEmpty(np: seq<set<string>>, parts: seq<set<string>>)
    requires AllNonEmpty(np) && AllNonEmpty(parts)
    ensures AllNonEmpty(np + parts)
  {
    forall i | 0 <= i < |np + parts| ensures (np + parts)[i] != {} {
      if i >= |np| {
        assert (np + parts)[i] == parts[i - |np|];
      }
    }
  }

  /** After the last block, the round has the properties `RefineRound` promises. */
  lemma RoundDone(ts: seq<Transition>, p: seq<set<string>>, np: seq<set<string>>, origin: seq<int>)
    requires RoundSoFar(ts, p, np, origin, |p|)
    ensures AllNonEmpty(np)
    ensures PiecesOf(ts, p, np, origin, |p|)
    ensures forall j, s :: 0 <= j < |p| && s in p[j] ==> GetBlock(np, s) >= 0
    ensures Disjoint(p) ==> Disjoint(np)
    ensures Disjoint(p) ==> SplitByKeys(ts, p, np)
    ensures |np| >= NonEmptyCount(p)
    ensures |np| == NonEmptyCount(p) == |p| ==> np == p
  {
    assert p[..|p|] == p;
    if Disjoint(p) {
      SplitByKey(ts, p, np, origin);
    }
  }

  /** With disjoint old blocks, two states share a piece iff they shared a block and a key. */
  lemma SplitByKey(ts: seq<Transition>, p: seq<set<string>>, np: seq<set<string>>, origin: seq<int>)
    requires Disjoint(p) && PiecesOf(ts, p, np, origin, |p|)
    ensures SplitByKeys(ts, p, np)
  {
    forall i, s, t | 0 <= i < |np| && s in np[i]
      ensures t in np[i] <==> GetBlock(p, t) == GetBlock(p, s) && Key(ts, p, t) == Key(ts, p, s)
    {
      assert KeyClass(ts, p, np[i], p[origin[i]]);
      assert GetBlock(p, s) == origin[i];
    }
  }

  lemma AppendPieces(ts: seq<Transition>, p: seq<set<string>>, j: nat, np: seq<set<string>>, origin: seq<int>,
                     parts: seq<set<string>>, from: seq<int>)
    requires j < |p|
    requires PiecesOf(ts, p, np, origin, j)
    requires forall i :: 0 <= i < |parts| ==> KeyClass(ts, p, parts[i], p[j])
    requires from == seq(|parts|, _ => j)
    ensures PiecesOf(ts, p, np + parts, origin + from, j + 1)
  {
    var all, at := np + parts, origin + from;
    forall i | 0 <= i < |all| ensures 0 <= at[i] < j + 1 && KeyClass(ts, p, all[i], p[at[i]]) {
      if i >= |np| {
        assert all[i] == parts[i - |np|] && at[i] == j;
      } else {
        assert all[i] == np[i] && at[i] == origin[i];
      }
    }
  }

  lemma AppendSpread(p: seq<set<string>>, j: nat, np: seq<set<string>>, parts: seq<set<string>>)
    requires j < |p|
    requires SpreadOver(p, np, j)
    requires forall s :: s in p[j] ==> GetBlock(parts, s) >= 0
    ensures SpreadOver(p, np + parts, j + 1)
  {
    var all := np + parts;
    forall jj, s | 0 <= jj < j + 1 && jj < |p| && s in p[jj] ensures GetBlock(all, s) >= 0 {
      if jj == j {
        var k := GetBlock(parts, s);
        assert s in all[|np| + k];
      } else {
        var k := GetBlock(np, s);
        assert s in all[k];
      }
    }
  }

  lemma AppendDisjoint(ts: seq<Transition>, p: seq<set<string>>, j: nat, np: seq<set<string>>, origin: seq<int>,
                       parts: seq<set<string>>)
    requires j < |p| && Disjoint(p)
    requires PiecesOf(ts, p, np, origin, j) && Disjoint(np)
    requires Disjoint(parts)
    requires forall i :: 0 <= i < |parts| ==> parts[i] <= p[j]
    ensures Disjoint(np + parts)
  {
    var all := np + parts;
    forall a, b | 0 <= a < |np| && |np| <= b < |all| ensures all[a] !! all[b] {
      assert KeyClass(ts, p, np[a], p[origin[a]]);
      assert all[a] == np[a] && all[a] <= p[origin[a]];
      assert all[b] == parts[b - |np|] && all[b] <= p[j];
    }
    forall a, b, s | 0 <= a < |all| && 0 <= b < |all| && s in all[a] && s in all[b] ensures a == b {
      if a >= |np| && b >= |np| {
        assert all[a] == parts[a - |np|] && all[b] == parts[b - |np|];
      } else if a < |np| && b < |np| {
        assert all[a] == np[a] && all[b] == np[b];
      }
    }
  }

  lemma AppendCount(p: seq<set<string>>, j: nat, np: seq<set<string>>, parts: seq<set<string>>)
    requires j < |p|
    requires |np| >= NonEmptyCount(p[..j])
    requires |np| == NonEmptyCount(p[..j]) == j ==> np == p[..j]
    requires forall i :: 0 <= i < |parts| ==> parts[i] <= p[j]
    requires forall s :: s in p[j] ==> GetBlock(parts, s) >= 0
    requires p[j] == {} ==> parts == []
    ensures |np + parts| >= NonEmptyCount(p[..j + 1])
    ensures |np + parts| == NonEmptyCount(p[..j + 1]) == j + 1 ==> np + parts == p[..j + 1]
  {
    assert p[..j + 1][..j] == p[..j];
    assert p[..j + 1] == p[..j] + [p[j]];
    if p[j] != {} {
      var s :| s in p[j];
      assert GetBlock(parts, s) >= 0;
      if |np + parts| == NonEmptyCount(p[..j + 1]) == j + 1 {
        assert |parts| == 1;
        assert parts[0] == p[j] by {
          forall x | x in p[j] ensures x in parts[0] {
            assert GetBlock(parts, x) == 0;
          }
        }
      }
    }
  }

  /**
   * Lines 44-66: refine the initial partition until a round leaves the list
   * of blocks unchanged. `rounds` counts the rounds, the last one included.
   * The result is the coarsest candidate: stable, within the initial split,
   * and merging every pair of states that some such partition merges.
   */
  method RefinePartition(states: set<string>, finals: set<string>, ts: seq<Transition>)
    returns (p: seq<set<string>>, ghost rounds: nat)
    ensures Disjoint(p) && AllNonEmpty(p) && Covers(p, states + finals)
    ensures Homogeneous(p, finals) && SplitsInitial(p, states, finals)
    ensures Stable(ts, p)
    ensures Coarsest(ts, p, states + finals, states, finals)
    ensures |p| <= |states + finals|
    ensures rounds <= 1 + (if states + finals == {} then 1 else |states + finals|)
  {
    ghost var universe := states + finals;
    p := InitialPartition(states, finals);
    ghost var bound := Potential(p, universe);
    rounds := 0;
    BlockCountBound(p, universe);
    InitialIsCoarsest(ts, states, finals);
    while true
      invariant Disjoint(p) && Covers(p, universe) && Homogeneous(p, finals) && SplitsInitial(p, states, finals)
      invariant Coarsest(ts, p, universe, states, finals)
      invariant NonEmptyCount(p) <= |universe|
      invariant rounds + Potential(p, universe) <= bound
      decreases Potential(p, universe)
    {
      ghost var origin;
      var next;
      next, origin := RefineRound(ts, p);
      rounds := rounds + 1;
      if next == p {
        FixedPointIsStable(ts, p, origin);
        break;
      }
      RoundKeepsInvariant(ts, p, next, origin, states, finals);
      RoundKeepsCoarsest(ts, p, next, universe, states, finals);
      BlockCountBound(next, universe);
      p := next;
    }
    BlockCountBound(p, universe);
  }

  /** A round that changes nothing leaves every block with a single key. */
  lemma FixedPointIsStable(ts: seq<Transition>, p: seq<set<string>>, origin: seq<int>)
    requires PiecesOf(ts, p, p, origin, |p|)
    ensures Stable(ts, p)
  {
    forall i, s, t | 0 <= i < |p| && s in p[i] && t in p[i] ensures Key(ts, p, s) == Key(ts, p, t) {
      assert KeyClass(ts, p, p[i], p[origin[i]]);
    }
  }

  /** A round's output keeps the loop invariant of RefinePartition. */
  lemma RoundKeepsInvariant(ts: seq<Transition>, p: seq<set<string>>, next: seq<set<string>>, origin: seq<int>,
                            states: set<string>, finals: set<string>)
    requires Covers(p, states + finals) && Homogeneous(p, finals) && SplitsInitial(p, states, finals)
    requires PiecesOf(ts, p, next, origin, |p|)
    requires forall j, s :: 0 <= j < |p| && s in p[j] ==> GetBlock(next, s) >= 0
    ensures Covers(next, states + finals) && Homogeneous(next, finals) && SplitsInitial(next, states, finals)
  {
    forall i | 0 <= i < |next|
      ensures next[i] <= states + finals
      ensures next[i] <= finals || next[i] !! finals
      ensures next[i] <= finals || next[i] <= states - finals
    {
      assert KeyClass(ts, p, next[i], p[origin[i]]);
    }
    forall s | s in states + finals ensures GetBlock(next, s) >= 0 {
      assert s in p[GetBlock(p, s)];
    }
  }

  /**
   * In a stable partition the members of a block agree on their transitions:
   * for each labelled transition out of one member, another member has a
   * transition with the same label into the same block.
   */
  lemma StableBlocksAgree(ts: seq<Transition>, p: seq<set<string>>, i: int, s: string, t: string, tr: Transition)
    requires Stable(ts, p) && 0 <= i < |p| && s in p[i] && t in p[i]
    requires tr in ts && tr.source == s
    ensures exists u :: (u in ts && u.source == t && u.symbol == tr.symbol
                         && GetBlock(p, u.destination) == GetBlock(p, tr.destination))
  {
    KeyMembers(ts, p, s, tr.symbol, GetBlock(p, tr.destination));
    KeyMembers(ts, p, t, tr.symbol, GetBlock(p, tr.destination));
  }

  /**
   * `q` is a candidate answer: a disjoint, stable partition of `u` whose
   * blocks each lie within the final states or within the other states.
   */
  ghost predicate StableSplit(ts: seq<Transition>, q: seq<set<string>>, u: set<string>,
                              states: set<string>, finals: set<string>)
  {
    Disjoint(q) && Covers(q, u) && Stable(ts, q) && SplitsInitial(q, states, finals)
  }

  /** States that share a block of `q` share a block of `p`. */
  ghost predicate Finer(q: seq<set<string>>, p: seq<set<string>>)
  {
    forall x, y :: GetBlock(q, x) >= 0 && GetBlock(q, x) == GetBlock(q, y) ==> GetBlock(p, x) == GetBlock(p, y)
  }

  /** Every candidate answer is finer than `p`: `p` merges at least as much as any of them. */
  ghost predicate Coarsest(ts: seq<Transition>, p: seq<set<string>>, u: set<string>,
                           states: set<string>, finals: set<string>)
  {
    forall q :: StableSplit(ts, q, u, states, finals) ==> Finer(q, p)
  }

  /**
   * The outgoing transitions of `s`: the filter of line 58, keeping list
   * order and multiplicity.
   */
  function Outgoing(ts: seq<Transition>, s: string): (out: seq<Transition>)
    ensures forall t :: t in out <==> t in ts && t.source == s
    ensures forall t: Transition :: multiset(out)[t] == if t.source == s then multiset(ts)[t] else 0
    ensures IsSubsequence(out, ts)
  {
    if ts == [] then []
    else
      var front, last := ts[..|ts| - 1], ts[|ts| - 1];
      var out := Outgoing(front, s);
      var tail := if last.source == s then [last] else [];
      assert ts == front + [last];
      assert multiset(out + tail) == multiset(out) + multiset(tail);
      SubsequenceSnoc(out, front, last, last.source == s);
      assert out + tail == (if last.source == s then out + [last] else out);
      out + tail
  }

  /** The pairs of a key, one per transition of `out`. */
  function Pairs(out: seq<Transition>, p: seq<set<string>>): (key: seq<(string, int)>)
    ensures |key| == |out|
  {
    seq(|out|, k requires 0 <= k < |out| => (out[k].symbol, GetBlock(p, out[k].destination)))
  }

  /** A key is the pairs of the state's outgoing transitions. */
  lemma {:induction false} KeyIsPairs(ts: seq<Transition>, p: seq<set<string>>, s: string)
    ensures Key(ts, p, s) == Pairs(Outgoing(ts, s), p)
  {
    if ts != [] {
      var front, last := ts[..|ts| - 1], ts[|ts| - 1];
      KeyIsPairs(front, p, s);
      if last.source == s {
        PairsSnoc(Outgoing(front, s), last, p);
      }
    }
  }

  /** One more transition adds its pair at the end of the key. */
  lemma PairsSnoc(out: seq<Transition>, last: Transition, p: seq<set<string>>)
    ensures Pairs(out + [last], p) == Pairs(out, p) + [(last.symbol, GetBlock(p, last.destination))]
  {
    assert Pairs(out + [last], p)[|out|] == (last.symbol, GetBlock(p, last.destination));
  }

  /**
   * When `q`'s blocks never separate what `p`'s blocks join, equal keys over
   * `q` are equal keys over `p`.
   */
  lemma KeyTransfer(ts: seq<Transition>, q: seq<set<string>>, p: seq<set<string>>, s: string, t: string)
    requires forall x, y :: GetBlock(q, x) == GetBlock(q, y) ==> GetBlock(p, x) == GetBlock(p, y)
    requires Key(ts, q, s) == Key(ts, q, t)
    ensures Key(ts, p, s) == Key(ts, p, t)
  {
    KeyIsPairs(ts, q, s);
    KeyIsPairs(ts, q, t);
    KeyIsPairs(ts, p, s);
    KeyIsPairs(ts, p, t);
    var os, ot := Outgoing(ts, s), Outgoing(ts, t);
    assert |os| == |Pairs(os, q)| == |Pairs(ot, q)| == |ot|;
    forall k | 0 <= k < |os| ensures Pairs(os, p)[k] == Pairs(ot, p)[k] {
      assert Pairs(os, q)[k] == Pairs(ot, q)[k];
    }
  }

  /** Over one covered set, `Finer` extends to the states neither partition holds. */
  lemma FinerEverywhere(q: seq<set<string>>, p: seq<set<string>>, u: set<string>)
    requires Covers(q, u) && Covers(p, u) && Finer(q, p)
    ensures forall x, y :: GetBlock(q, x) == GetBlock(q, y) ==> GetBlock(p, x) == GetBlock(p, y)
  {
    forall x, y | GetBlock(q, x) == GetBlock(q, y) ensures GetBlock(p, x) == GetBlock(p, y) {
      if GetBlock(q, x) < 0 {
        assert x !in u && y !in u;
      }
    }
  }

  /** The initial split is coarser than every candidate answer. */
  lemma InitialIsCoarsest(ts: seq<Transition>, states: set<string>, finals: set<string>)
    ensures Coarsest(ts, InitialPartition(states, finals), states + finals, states, finals)
  {
    var p := InitialPartition(states, finals);
    forall q | StableSplit(ts, q, states + finals, states, finals) ensures Finer(q, p) {
      forall x, y | GetBlock(q, x) >= 0 && GetBlock(q, x) == GetBlock(q, y)
        ensures GetBlock(p, x) == GetBlock(p, y)
      {
        var i := GetBlock(q, x);
        assert x in q[i] && y in q[i];
      }
    }
  }

  /** A round keeps every candidate answer finer than the partition. */
  lemma RoundKeepsCoarsest(ts: seq<Transition>, p: seq<set<string>>, np: seq<set<string>>,
                           u: set<string>, states: set<string>, finals: set<string>)
    requires Disjoint(p) && Covers(p, u) && Disjoint(np) && SplitByKeys(ts, p, np)
    requires forall j, s :: 0 <= j < |p| && s in p[j] ==> GetBlock(np, s) >= 0
    requires Coarsest(ts, p, u, states, finals)
    ensures Coarsest(ts, np, u, states, finals)
  {
    forall q | StableSplit(ts, q, u, states, finals) ensures Finer(q, np) {
      assert Finer(q, p);
      FinerEverywhere(q, p, u);
      forall x, y | GetBlock(q, x) >= 0 && GetBlock(q, x) == GetBlock(q, y)
        ensures GetBlock(np, x) == GetBlock(np, y)
      {
        var i := GetBlock(q, x);
        assert x in q[i] && y in q[i];
        KeyTransfer(ts, q, p, x, y);
        assert x in p[GetBlock(p, x)];
        var k := GetBlock(np, x);
        assert x in np[k];
        assert y in np[k];
      }
    }
  }

  /**
   * A stable candidate that is coarsest merges two states exactly when some
   * candidate answer merges them.
   */
  lemma CoarsestMergesExactly(ts: seq<Transition>, p: seq<set<string>>, u: set<string>,
                              states: set<string>, finals: set<string>, x: string, y: string)
    requires StableSplit(ts, p, u, states, finals) && Coarsest(ts, p, u, states, finals)
    ensures (GetBlock(p, x) >= 0 && GetBlock(p, x) == GetBlock(p, y)) <==>
      exists q :: StableSplit(ts, q, u, states, finals) && GetBlock(q, x) >= 0 && GetBlock(q, x) == GetBlock(q, y)
  {
    if exists q :: StableSplit(ts, q, u, states, finals) && GetBlock(q, x) >= 0 && GetBlock(q, x) == GetBlock(q, y) {
      var q :| StableSplit(ts, q, u, states, finals) && GetBlock(q, x) >= 0 && GetBlock(q, x) == GetBlock(q, y);
      assert Finer(q, p);
      assert x in q[GetBlock(q, x)];
    }
  }

  /** What is left to gain: blocks still to appear, plus one while an empty block remains. */
  function Potential(p: seq<set<string>>, u: set<string>): int
  {
    |u| - NonEmptyCount(p) + (if NonEmptyCount(p) < |p| then 1 else 0)
  }
}
