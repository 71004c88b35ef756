/**
 * The values the DFA reducer works on: transitions between named states,
 * the reduced automaton it returns, and the outcome of a dictionary lookup
 * that may raise KeyError.
 */
module Automaton {

  /** One `{source, destination, label}` record of the transition list; `label` is a reserved word in Dafny, so the field is `symbol`. */
  datatype Transition = Transition(source: string, destination: string, symbol: string)

  datatype Option<T> = None | Some(value: T)

  /** A successful result, or the key whose lookup in a dictionary failed. */
  datatype Outcome<T> = Ok(value: T) | KeyError(key: string)

  /** The four values `minimize_dfa` returns. */
  datatype Minimized = Minimized(
    states: seq<string>,
    initial: string,
    finals: set<string>,
    transitions: seq<Transition>)

  /** Every state named by the automaton is one of its states. */
  ghost predicate WellFormed(d: Minimized)
  {
    && d.initial in d.states
    && (forall f :: f in d.finals ==> f in d.states)
    && (forall t :: t in d.transitions ==> t.source in d.states && t.destination in d.states)
  }

  /** `a` is `b` with some elements left out, the rest kept in order. */
  ghost predicate IsSubsequence<T>(a: seq<T>, b: seq<T>)
    decreases |b|
  {
    if a == [] then true
    else if b == [] then false
    else if a[0] == b[0] then IsSubsequence(a[1..], b[1..])
    else IsSubsequence(a, b[1..])
  }

  /** Appending one element to the longer sequence, and optionally to the shorter, keeps a subsequence. */
  lemma {:induction false} SubsequenceSnoc<T>(a: seq<T>, b: seq<T>, x: T, keep: bool)
    requires IsSubsequence(a, b)
    ensures IsSubsequence(if keep then a + [x] else a, b + [x])
    decreases |b|
  {
    var a' := if keep then a + [x] else a;
    if a' != [] && b != [] {
      assert (b + [x])[1..] == b[1..] + [x];
      if a != [] && a[0] == b[0] {
        SubsequenceSnoc(a[1..], b[1..], x, keep);
        assert a'[1..] == (if keep then a[1..] + [x] else a[1..]);
      } else if a == [] {
        if x != b[0] {
          SubsequenceSnoc(a, b[1..], x, keep);
        }
      } else {
        SubsequenceSnoc(a, b[1..], x, keep);
      }
    }
  }
}
