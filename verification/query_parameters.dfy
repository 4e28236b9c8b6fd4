/** The grouping that `QueryStringDecoder.parameters()` performs and the
    first-value choice of the deserializer.

    The decoder yields the payload's (name, value) pairs in order. Its
    `parameters()` map sends each name to the list of all its values, in
    order, and the deserializer keeps only the first value of each list.
 */
module QueryParameters {

  /** The names that occur in a list of pairs. */
  function Names<T>(ps: seq<(string, T)>): set<string> {
    set i | 0 <= i < |ps| :: ps[i].0
  }

  /** The values given for `name`, in order: the reference for the lists of
      `parameters()`. */
  function ValuesOf<T>(ps: seq<(string, T)>, name: string): seq<T> {
    if |ps| == 0 then []
    else (if ps[0].0 == name then [ps[0].1] else []) + ValuesOf(ps[1..], name)
  }

  lemma NamesCons<T>(ps: seq<(string, T)>)
    requires |ps| > 0
    ensures Names(ps) == {ps[0].0} + Names(ps[1..])
  {
    forall k | k in Names(ps) ensures k in {ps[0].0} + Names(ps[1..]) {
      var i :| 0 <= i < |ps| && ps[i].0 == k;
      if i > 0 {
        assert ps[1..][i - 1].0 == k;
      }
    }
    forall k | k in Names(ps[1..]) ensures k in Names(ps) {
      var i :| 0 <= i < |ps[1..]| && ps[1..][i].0 == k;
      assert ps[i + 1].0 == k;
    }
  }

  /** A name that does not occur has no values. */
  lemma {:induction false} ValuesOfAbsent<T>(ps: seq<(string, T)>, name: string)
    requires name !in Names(ps)
    ensures ValuesOf(ps, name) == []
  {
    if |ps| > 0 {
      NamesCons(ps);
      ValuesOfAbsent(ps[1..], name);
    }
  }

  /** `parameters()`: every name that occurs, with all its values in order. */
  function Parameters(ps: seq<(string, string)>): (r: map<string, seq<string>>)
    ensures r.Keys == Names(ps)
    ensures forall k :: k in r ==> r[k] == ValuesOf(ps, k) && |r[k]| > 0
  {
    if |ps| == 0 then map[]
    else
      var rest := Parameters(ps[1..]);
      var k := ps[0].0;
      NamesCons(ps);
      if k !in rest then ValuesOfAbsent(ps[1..], k); rest[k := [ps[0].1]]
      else rest[k := [ps[0].1] + rest[k]]
  }

  /** Each name sent to the value of its first occurrence; later ones are
      ignored. */
  function FirstMap<T>(ps: seq<(string, T)>): (r: map<string, T>)
    ensures r.Keys == Names(ps)
  {
    if |ps| == 0 then map[]
    else
      NamesCons(ps);
      FirstMap(ps[1..])[ps[0].0 := ps[0].1]
  }

  /** First value wins: a name maps to the value of the pair where it first
      occurs. */
  lemma {:induction false} FirstMapFirst<T>(ps: seq<(string, T)>, i: nat)
    requires i < |ps|
    requires forall j :: 0 <= j < i ==> ps[j].0 != ps[i].0
    ensures ps[i].0 in FirstMap(ps) && FirstMap(ps)[ps[i].0] == ps[i].1
  {
    if i > 0 {
      assert ps[1..][i - 1] == ps[i];
      FirstMapFirst(ps[1..], i - 1);
    }
  }

  /** The names of `ps` not in `seen`, each once, in order of first
      occurrence. */
  function NamesInOrder<T>(ps: seq<(string, T)>, seen: set<string>): (r: seq<string>)
    ensures forall i :: 0 <= i < |r| ==> r[i] !in seen && r[i] in Names(ps)
    ensures forall i, j :: 0 <= i < j < |r| ==> r[i] != r[j]
    ensures forall k :: k in Names(ps) && k !in seen ==> k in r
  {
    if |ps| == 0 then []
    else
      NamesCons(ps);
      if ps[0].0 in seen then NamesInOrder(ps[1..], seen)
      else [ps[0].0] + NamesInOrder(ps[1..], seen + {ps[0].0})
  }

  /** Each name in `names` paired with its group. */
  function Grouped(names: seq<string>, groups: map<string, seq<string>>): (r: seq<(string, seq<string>)>)
    requires forall i :: 0 <= i < |names| ==> names[i] in groups
    ensures |r| == |names|
    ensures forall i :: 0 <= i < |r| ==> r[i] == (names[i], groups[names[i]])
  {
    seq(|names|, i requires 0 <= i < |names| => (names[i], groups[names[i]]))
  }

  /** Pairs named in the order of `names` have exactly those names. */
  lemma NamesFollow<T>(r: seq<(string, T)>, names: seq<string>)
    requires |r| == |names|
    requires forall i :: 0 <= i < |r| ==> r[i].0 == names[i]
    ensures forall k :: k in Names(r) <==> k in names
  {
    forall k | k in names ensures k in Names(r) {
      var i :| 0 <= i < |names| && names[i] == k;
      assert r[i].0 == k;
    }
  }

  /** `parameters().entrySet()` in iteration order. The decoder builds a
      `LinkedHashMap`, so each name comes once, where it first occurs, with
      the list of all its values. */
  function ParameterEntries(ps: seq<(string, string)>): (r: seq<(string, seq<string>)>)
    ensures Names(r) == Names(ps)
    ensures forall i, j :: 0 <= i < j < |r| ==> r[i].0 != r[j].0
    ensures forall i :: 0 <= i < |r| ==> r[i].1 == ValuesOf(ps, r[i].0) && |r[i].1| > 0
  {
    var names := NamesInOrder(ps, {});
    var r := Grouped(names, Parameters(ps));
    NamesFollow(r, names);
    r
  }

  /** The first value of each entry of `parameters()` is the first-value-wins
      value of its name. */
  lemma ParameterEntriesFirst(ps: seq<(string, string)>)
    ensures Names(ParameterEntries(ps)) == FirstMap(ps).Keys
    ensures forall i :: 0 <= i < |ParameterEntries(ps)| ==>
              var e := ParameterEntries(ps)[i];
              |e.1| > 0 && e.1[0] == FirstMap(ps)[e.0]
  {
    var r := ParameterEntries(ps);
    forall i | 0 <= i < |r| ensures |r[i].1| > 0 && r[i].1[0] == FirstMap(ps)[r[i].0] {
      assert r[i].0 in Names(r);
      FirstValue(ps, r[i].0);
    }
  }

  /** The first of a name's values is its first-value-wins value. */
  lemma {:induction false} FirstValue<T>(ps: seq<(string, T)>, k: string)
    requires k in Names(ps)
    ensures |ValuesOf(ps, k)| > 0 && ValuesOf(ps, k)[0] == FirstMap(ps)[k]
  {
    NamesCons(ps);
    var rest := ps[1..];
    if ps[0].0 != k {
      assert k in Names(rest);
      FirstValue(rest, k);
      assert ValuesOf(ps, k) == [] + ValuesOf(rest, k);
      assert FirstMap(ps)[k] == FirstMap(rest)[k];
    } else {
      assert ValuesOf(ps, k) == [ps[0].1] + ValuesOf(rest, k);
      assert FirstMap(ps)[k] == ps[0].1;
    }
  }

  /** When `es` has the same names as `ps`, in the same order, and each of
      its values is related by `rel` to the corresponding value of `ps`, the
      two first-value maps have the same keys and are related key by key. */
  lemma {:induction false} FirstMapRelated<T, U>(ps: seq<(string, T)>, es: seq<(string, U)>, rel: (T, U) -> bool)
    requires |ps| == |es|
    requires forall i :: 0 <= i < |ps| ==> es[i].0 == ps[i].0 && rel(ps[i].1, es[i].1)
    ensures FirstMap(es).Keys == FirstMap(ps).Keys
    ensures forall k :: k in FirstMap(ps) ==> rel(FirstMap(ps)[k], FirstMap(es)[k])
  {
    if |ps| > 0 {
      FirstMapRelated(ps[1..], es[1..], rel);
      assert es[0].0 == ps[0].0 && rel(ps[0].1, es[0].1);
    }
  }

  /** Two pairs with different names give a map of both. */
  lemma FirstMapPair<T>(ps: seq<(string, T)>, k1: string, v1: T, k2: string, v2: T)
    requires ps == [(k1, v1), (k2, v2)] && k1 != k2
    ensures FirstMap(ps) == map[k1 := v1, k2 := v2]
  {
    assert ps[1..] == [(k2, v2)];
    assert ps[1..][1..] == [];
  }

  /** Two pairs with a repeated name: the first value is kept, and
      `parameters()` keeps both in order. */
  lemma FirstMapExample()
    ensures FirstMap([("a", "1"), ("b", "2"), ("a", "3")]) == map["a" := "1", "b" := "2"]
    ensures Parameters([("a", "1"), ("b", "2"), ("a", "3")])["a"] == ["1", "3"]
  {
    var ps := [("a", "1"), ("b", "2"), ("a", "3")];
    assert ps[1..] == [("b", "2"), ("a", "3")];
    assert ps[1..][1..] == [("a", "3")];
    assert ps[1..][1..][1..] == [];
    assert ValuesOf(ps, "a") == ["1", "3"];
  }
}
