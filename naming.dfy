/**
 * Naming the blocks of the final partition (lines 68-69) and rewriting the
 * final states through the resulting state map (line 80).
 */
module Naming {
  import opened Partition

  /** Python's `<=` on strings: code point by code point, a prefix first. */
  predicate Below(a: string, b: string)
    decreases |a|
  {
    if a == [] then true
    else if b == [] then false
    else if a[0] != b[0] then a[0] < b[0]
    else Below(a[1..], b[1..])
  }

  lemma {:induction false} BelowAntisymmetric(a: string, b: string)
    requires Below(a, b) && Below(b, a)
    ensures a == b
    decreases |a|
  {
    if a != [] && b != [] {
      BelowAntisymmetric(a[1..], b[1..]);
      assert a == [a[0]] + a[1..] && b == [b[0]] + b[1..];
    }
  }

  lemma {:induction false} BelowTransitive(a: string, b: string, c: string)
    requires Below(a, b) && Below(b, c)
    ensures Below(a, c)
    decreases |a|
  {
    if a != [] && b != [] && c != [] && a[0] == b[0] == c[0] {
      BelowTransitive(a[1..], b[1..], c[1..]);
    }
  }

  lemma {:induction false} BelowTotal(a: string, b: string)
    ensures Below(a, b) || Below(b, a)
    decreases |a|
  {
    if a != [] && b != [] && a[0] == b[0] {
      BelowTotal(a[1..], b[1..]);
    }
  }

  lemma {:induction false} BelowReflexive(a: string)
    ensures Below(a, a)
    decreases |a|
  {
    if a != [] {
      BelowReflexive(a[1..]);
    }
  }

  /** Every non-empty finite set of strings has a least element. */
  lemma {:induction false} LeastExists(s: set<string>)
    requires s != {}
    ensures exists m :: m in s && forall x :: x in s ==> Below(m, x)
    decreases |s|
  {
    var y :| y in s;
    BelowReflexive(y);
    if s == {y} {
      assert forall x :: x in s ==> x == y;
    } else {
      var rest := s - {y};
      LeastExists(rest);
      var m :| m in rest && forall x :: x in rest ==> Below(m, x);
      BelowTotal(m, y);
      if Below(m, y) {
        forall x | x in s ensures Below(m, x) {
          if x != y {
            assert x in rest;
          }
        }
        assert m in s;
      } else {
        forall x | x in s ensures Below(y, x) {
          if x != y {
            assert x in rest;
            BelowTransitive(y, m, x);
          }
        }
      }
    }
  }

  /** A set has at most one least element. */
  lemma LeastIsUnique(s: set<string>)
    ensures forall m, n :: m in s && n in s && (forall x :: x in s ==> Below(m, x)) && (forall x :: x in s ==> Below(n, x)) ==> m == n
  {
    forall m, n | m in s && n in s && (forall x :: x in s ==> Below(m, x)) && (forall x :: x in s ==> Below(n, x))
      ensures m == n
    {
      BelowAntisymmetric(m, n);
    }
  }

  /** The least element of `s` followed by the rest of `s` in order is in order. */
  lemma LeastThenSorted(m: string, rest: seq<string>, s: set<string>)
    requires m in s && forall x :: x in s ==> Below(m, x)
    requires forall x :: x in rest <==> x in s - {m}
    requires forall i, j :: 0 <= i < j < |rest| ==> Below(rest[i], rest[j]) && rest[i] != rest[j]
    ensures forall i, j :: 0 <= i < j < |[m] + rest| ==>
      Below(([m] + rest)[i], ([m] + rest)[j]) && ([m] + rest)[i] != ([m] + rest)[j]
  {
    var r := [m] + rest;
    forall i, j | 0 <= i < j < |r| ensures Below(r[i], r[j]) && r[i] != r[j] {
      assert r[j] == rest[j - 1];
      if i > 0 {
        assert r[i] == rest[i - 1];
      } else {
        assert r[j] in rest;
      }
    }
  }

  /** `sorted(block)`: the members of `s` in increasing order. */
  function Sorted(s: set<string>): (r: seq<string>)
    ensures |r| == |s|
    ensures forall x :: x in r <==> x in s
    ensures forall i, j :: 0 <= i < j < |r| ==> Below(r[i], r[j]) && r[i] != r[j]
    decreases |s|
  {
    if s == {} then []
    else
      LeastExists(s);
      LeastIsUnique(s);
      var m :| m in s && forall x :: x in s ==> Below(m, x);
      var rest := Sorted(s - {m});
      LeastThenSorted(m, rest, s);
      [m] + rest
  }

  /** `''.join(names)`. */
  function Join(names: seq<string>): string
  {
    if names == [] then "" else names[0] + Join(names[1..])
  }

  /** The name of a block: `'q'` followed by its members in sorted order. */
  function BlockName(block: set<string>): (name: string)
    ensures |name| >= 1 && name[0] == 'q'
  {
    "q" + Join(Sorted(block))
  }

  /** A one-state block is named after its state. */
  lemma SingletonName(x: string)
    ensures BlockName({x}) == "q" + x
  {
    var r := Sorted({x});
    assert |r| == 1 && r[0] in {x};
    assert Join(r) == x + Join([]);
  }

  /**
   * Names are not injective: the blocks {"1", "2"} and {"12"} are both
   * named "q12".
   */
  lemma NamesCanCollide()
    ensures {"1", "2"} != {"12"}
    ensures BlockName({"1", "2"}) == BlockName({"12"}) == "q12"
  {
    var r := Sorted({"1", "2"});
    assert "1" in r && "2" in r && |r| == 2;
    assert !Below("2", "1");
    assert r == ["1", "2"];
    assert Join(r) == "1" + ("2" + Join([]));
    SingletonName("12");
    assert "12" !in {"1", "2"};
  }

  /** `new_states` (line 68): one name per block, in block order. */
  function NewStates(p: seq<set<string>>): (names: seq<string>)
    ensures |names| == |p|
    ensures forall i :: 0 <= i < |p| ==> |names[i]| >= 1 && names[i][0] == 'q'
  {
    seq(|p|, i requires 0 <= i < |p| => BlockName(p[i]))
  }

  /**
   * `state_map` (line 69): every state of every block maps to the block's
   * name; a state listed in two blocks keeps the name of the later one.
   */
  function StateMap(p: seq<set<string>>): map<string, string>
  {
    if p == [] then map[]
    else
      var last := p[|p| - 1];
      var name := BlockName(last);
      StateMap(p[..|p| - 1]) + map s | s in last :: name
  }

  /** The state map has an entry for exactly the states found in some block. */
  lemma {:induction false} StateMapKeys(p: seq<set<string>>, s: string)
    ensures s in StateMap(p) <==> GetBlock(p, s) >= 0
  {
    if p != [] {
      StateMapKeys(p[..|p| - 1], s);
    }
  }

  /** A state's entry is the name of the last block holding it. */
  lemma {:induction false} StateMapValue(p: seq<set<string>>, i: int, s: string)
    requires 0 <= i < |p| && s in p[i]
    requires forall j :: i < j < |p| ==> s !in p[j]
    ensures s in StateMap(p) && StateMap(p)[s] == BlockName(p[i])
  {
    if i < |p| - 1 {
      var front := p[..|p| - 1];
      assert s !in p[|p| - 1];
      StateMapValue(front, i, s);
    }
  }

  /** With disjoint blocks, every state maps to the name of its own block. */
  lemma StateMapNamesBlock(p: seq<set<string>>, i: int, s: string)
    requires Disjoint(p) && 0 <= i < |p| && s in p[i]
    ensures s in StateMap(p) && StateMap(p)[s] == BlockName(p[i]) == NewStates(p)[i]
  {
    StateMapValue(p, i, s);
  }

  /** The state map has an entry for exactly the states the partition covers. */
  lemma StateMapDomain(p: seq<set<string>>, u: set<string>)
    requires Covers(p, u)
    ensures StateMap(p).Keys == u
  {
    forall s ensures s in StateMap(p) <==> s in u {
      StateMapKeys(p, s);
      if GetBlock(p, s) >= 0 {
        assert s in p[GetBlock(p, s)];
      }
    }
  }

  /** Every state of a disjoint partition maps to one of the new states. */
  lemma MapsIntoNewStates(p: seq<set<string>>, u: set<string>, s: string)
    requires Disjoint(p) && Covers(p, u) && s in u
    ensures s in StateMap(p) && StateMap(p)[s] in NewStates(p)
  {
    StateMapNamesBlock(p, GetBlock(p, s), s);
  }

  /** `new_final_states` (line 80): the names of the final states. */
  function NewFinals(m: map<string, string>, finals: set<string>): (names: set<string>)
    requires finals <= m.Keys
    ensures names <= m.Values
    ensures |names| <= |finals|
  {
    ImageNoLarger(m, finals);
    set f | f in finals :: m[f]
  }

  /** Mapping a set through a map never makes it larger. */
  lemma {:induction false} ImageNoLarger(m: map<string, string>, xs: set<string>)
    requires xs <= m.Keys
    ensures |set f | f in xs :: m[f]| <= |xs|
    decreases |xs|
  {
    if xs != {} {
      var y :| y in xs;
      var rest := xs - {y};
      ImageNoLarger(m, rest);
      var image := set f | f in rest :: m[f];
      assert (set f | f in xs :: m[f]) == image + {m[y]};
      assert xs == rest + {y};
      if m[y] !in image {
        assert |image + {m[y]}| == |image| + 1;
      }
    }
  }

  /**
   * For a disjoint, homogeneous partition of the states and final states, a
   * name is final exactly when it names a block made of final states.
   */
  lemma FinalNamesAreFinalBlocks(p: seq<set<string>>, states: set<string>, finals: set<string>, name: string)
    requires Disjoint(p) && AllNonEmpty(p) && Covers(p, states + finals) && Homogeneous(p, finals)
    ensures finals <= StateMap(p).Keys
    ensures name in NewFinals(StateMap(p), finals) <==>
      exists i :: 0 <= i < |p| && p[i] <= finals && BlockName(p[i]) == name
  {
    var m := StateMap(p);
    forall f | f in finals ensures f in m {
      StateMapKeys(p, f);
    }
    if name in NewFinals(m, finals) {
      var f :| f in finals && m[f] == name;
      var i := GetBlock(p, f);
      StateMapNamesBlock(p, i, f);
      assert p[i] <= finals;
    }
    if exists i :: 0 <= i < |p| && p[i] <= finals && BlockName(p[i]) == name {
      var i :| 0 <= i < |p| && p[i] <= finals && BlockName(p[i]) == name;
      var f :| f in p[i];
      StateMapNamesBlock(p, i, f);
    }
  }
}
