/**
 * Rewriting the transition list through the state map (lines 71-77): each
 * transition's endpoints are looked up, and an image already in the output
 * is not added again.
 */
module Rewrite {
  import opened Automaton

  /**
   * The key whose lookup fails first in lines 73-74, if any: transitions are
   * taken in order, and for each one the source is looked up before the
   * destination.
   */
  function MissingEndpoint(ts: seq<Transition>, keys: set<string>): (r: Option<string>)
    ensures r == None <==> forall t :: t in ts ==> t.source in keys && t.destination in keys
    ensures r.Some? ==> exists k :: FirstMiss(ts, keys, k) && r.value == MissedKey(ts[k], keys)
  {
    if ts == [] then None
    else
      var front, last := ts[..|ts| - 1], ts[|ts| - 1];
      assert forall t :: t in ts <==> t in front || t == last by {
        assert ts == front + [last];
      }
      var r := MissingEndpoint(front, keys);
      if r.Some? then
        var k :| FirstMiss(front, keys, k) && r.value == MissedKey(front[k], keys);
        assert FirstMiss(ts, keys, k);
        r
      else if Misses(last, keys) then
        assert forall j :: 0 <= j < |ts| - 1 ==> !Misses(ts[j], keys) by {
          forall j | 0 <= j < |ts| - 1 ensures !Misses(ts[j], keys) {
            assert ts[j] in front;
          }
        }
        assert FirstMiss(ts, keys, |ts| - 1);
        Some(MissedKey(last, keys))
      else None
  }

  /** `ts[k]` is the first transition with an endpoint outside `keys`. */
  predicate FirstMiss(ts: seq<Transition>, keys: set<string>, k: int)
  {
    0 <= k < |ts| && Misses(ts[k], keys) && forall j :: 0 <= j < k ==> !Misses(ts[j], keys)
  }

  /** One of the two endpoints of `t` is not a key. */
  predicate Misses(t: Transition, keys: set<string>)
  {
    t.source !in keys || t.destination !in keys
  }

  /** The endpoint of `t` whose lookup fails: the source when both would. */
  function MissedKey(t: Transition, keys: set<string>): string
  {
    if t.source !in keys then t.source else t.destination
  }

  /** A failure found in a prefix is the failure of the whole list. */
  lemma {:induction false} MissingEndpointPrefix(ts: seq<Transition>, k: nat, keys: set<string>)
    requires k <= |ts| && MissingEndpoint(ts[..k], keys).Some?
    ensures MissingEndpoint(ts, keys) == MissingEndpoint(ts[..k], keys)
    decreases |ts| - k
  {
    if k < |ts| {
      var front := ts[..|ts| - 1];
      assert front[..k] == ts[..k];
      MissingEndpointPrefix(front, k, keys);
    } else {
      assert ts[..k] == ts;
    }
  }

  /** The rewritten transition of lines 73-77. */
  function Image(m: map<string, string>, t: Transition): Transition
    requires t.source in m && t.destination in m
  {
    Transition(m[t.source], m[t.destination], t.symbol)
  }

  /** The rewritten transitions, one per input transition, duplicates kept. */
  function Images(ts: seq<Transition>, m: map<string, string>): (r: seq<Transition>)
    requires forall t :: t in ts ==> t.source in m && t.destination in m
    ensures |r| == |ts|
    ensures forall k :: 0 <= k < |ts| ==>
      r[k].symbol == ts[k].symbol && r[k].source in m.Values && r[k].destination in m.Values
  {
    seq(|ts|, i requires 0 <= i < |ts| => Image(m, ts[i]))
  }

  /** The list with every element after its first occurrence left out. */
  function Dedup<T(==, !new)>(xs: seq<T>): (r: seq<T>)
    ensures forall x :: x in r <==> x in xs
    ensures forall i, j :: 0 <= i < j < |r| ==> r[i] != r[j]
    ensures |r| <= |xs|
  {
    if xs == [] then []
    else
      var front, last := xs[..|xs| - 1], xs[|xs| - 1];
      assert forall x :: x in xs <==> x in front || x == last by {
        assert xs == front + [last];
      }
      var d := Dedup(front);
      if last in d then d else d + [last]
  }

  /** The index of the first occurrence of `x`. */
  function FirstIndex<T(==)>(xs: seq<T>, x: T): (k: nat)
    requires x in xs
    ensures k < |xs| && xs[k] == x
    ensures forall j :: 0 <= j < k ==> xs[j] != x
  {
    if xs[0] == x then 0 else 1 + FirstIndex(xs[1..], x)
  }

  /** `Dedup` lists the elements in the order of their first occurrence. */
  lemma {:induction false} DedupKeepsFirstOccurrenceOrder<T(!new)>(xs: seq<T>)
    ensures forall i, j :: 0 <= i < j < |Dedup(xs)| ==>
      FirstIndex(xs, Dedup(xs)[i]) < FirstIndex(xs, Dedup(xs)[j])
  {
    if xs != [] {
      var front, last := xs[..|xs| - 1], xs[|xs| - 1];
      assert xs == front + [last];
      DedupKeepsFirstOccurrenceOrder(front);
      var d := Dedup(front);
      forall y | y in front ensures FirstIndex(xs, y) == FirstIndex(front, y) {
        FirstIndexInPrefix(front, last, y);
      }
      if last !in d {
        forall i | 0 <= i < |d| ensures FirstIndex(xs, d[i]) < FirstIndex(xs, last) {
          assert d[i] in front;
          FirstIndexInPrefix(front, last, d[i]);
        }
      }
    }
  }

  /** Appending an element leaves the first occurrences of the others alone. */
  lemma FirstIndexInPrefix<T>(front: seq<T>, last: T, y: T)
    requires y in front
    ensures FirstIndex(front + [last], y) == FirstIndex(front, y)
    ensures last !in front ==> FirstIndex(front + [last], last) == |front|
  {
    var xs := front + [last];
    var a, b := FirstIndex(xs, y), FirstIndex(front, y);
    assert xs[b] == y;
    assert a <= b;
    assert front[a] == y;
  }

  /** The first transition with a missing endpoint decides the KeyError. */
  lemma FailureAt(ts: seq<Transition>, i: int, keys: set<string>)
    requires 0 <= i < |ts| && MissingEndpoint(ts[..i], keys) == None && Misses(ts[i], keys)
    ensures MissingEndpoint(ts, keys) == Some(MissedKey(ts[i], keys))
  {
    assert ts[..i + 1][..i] == ts[..i];
    assert MissingEndpoint(ts[..i + 1], keys) == Some(MissedKey(ts[i], keys));
    MissingEndpointPrefix(ts, i + 1, keys);
  }

  /** One more transition whose endpoints are both keys adds its image unless already present. */
  lemma ExtendImages(ts: seq<Transition>, i: int, m: map<string, string>)
    requires 0 <= i < |ts| && MissingEndpoint(ts[..i], m.Keys) == None
    requires ts[i].source in m && ts[i].destination in m
    ensures MissingEndpoint(ts[..i + 1], m.Keys) == None
    ensures var d, image := Dedup(Images(ts[..i], m)), Image(m, ts[i]);
      Dedup(Images(ts[..i + 1], m)) == if image in d then d else d + [image]
  {
    assert ts[..i + 1][..i] == ts[..i];
    assert Images(ts[..i + 1], m)[..i] == Images(ts[..i], m);
  }

  /**
   * Lines 71-77: rewrite every transition through `m`, keeping only the
   * first copy of each image. A missing endpoint raises KeyError.
   */
  method RewriteTransitions(ts: seq<Transition>, m: map<string, string>) returns (r: Outcome<seq<Transition>>)
    ensures MissingEndpoint(ts, m.Keys).Some? ==> r == KeyError(MissingEndpoint(ts, m.Keys).value)
    ensures MissingEndpoint(ts, m.Keys) == None ==> r == Ok(Dedup(Images(ts, m)))
  {
    var out: seq<Transition> := [];
    for i := 0 to |ts|
      invariant MissingEndpoint(ts[..i], m.Keys) == None
      invariant out == Dedup(Images(ts[..i], m))
    {
      var t := ts[i];
      if t.source !in m || t.destination !in m {
        FailureAt(ts, i, m.Keys);
        if t.source !in m {
          return KeyError(t.source);
        }
        return KeyError(t.destination);
      }
      var image := Transition(m[t.source], m[t.destination], t.symbol);
      ExtendImages(ts, i, m);
      if image !in out {
        out := out + [image];
      }
    }
    assert ts[..|ts|] == ts;
    r := Ok(out);
  }
}
