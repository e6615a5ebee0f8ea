/**
  A Python `dict[str, str]` as the builder uses it: the pairs in insertion
  order with unique keys. `Put` is item assignment; `Update` is
  `dict.update` with a dict argument.
 */
module ParamMap {
  import opened Wrappers

  type Params = seq<(string, string)>

  /** The keys in order, as iterating the dict yields them. */
  function KeysOf(m: Params): (ks: seq<string>)
    ensures |ks| == |m|
    ensures forall i :: 0 <= i < |m| ==> ks[i] == m[i].0
  {
    if m == [] then [] else [m[0].0] + KeysOf(m[1..])
  }

  predicate UniqueKeys(m: Params)
  {
    m == [] || (m[0].0 !in KeysOf(m[1..]) && UniqueKeys(m[1..]))
  }

  /** `m.get(k)`: the value stored under k, if any. */
  function Get(m: Params, k: string): Option<string>
  {
    if m == [] then None
    else if m[0].0 == k then Some(m[0].1)
    else Get(m[1..], k)
  }

  /** `m[k] = v`: an existing key keeps its position, a new key goes last. */
  function Put(m: Params, k: string, v: string): Params
  {
    if m == [] then [(k, v)]
    else if m[0].0 == k then [(k, v)] + m[1..]
    else [m[0]] + Put(m[1..], k, v)
  }

  /** `m.update(p)`: p's pairs assigned one after another, in p's order. */
  function Update(m: Params, p: Params): Params
    decreases |p|
  {
    if p == [] then m else Update(Put(m, p[0].0, p[0].1), p[1..])
  }

  /** The keys of p that m does not hold yet, in p's order. */
  function NewKeys(ks: seq<string>, qs: seq<string>): seq<string>
  {
    if qs == [] then []
    else (if qs[0] in ks then [] else [qs[0]]) + NewKeys(ks, qs[1..])
  }

  lemma {:induction false} GetPresent(m: Params, k: string)
    ensures Get(m, k).Some? <==> k in KeysOf(m)
  {
    if m != [] {
      GetPresent(m[1..], k);
    }
  }

  /** After `m[k] = v`, k maps to v and every other key to its old value. */
  lemma {:induction false} GetPut(m: Params, k: string, v: string, j: string)
    ensures Get(Put(m, k, v), j) == if j == k then Some(v) else Get(m, j)
  {
    if m != [] && m[0].0 != k {
      GetPut(m[1..], k, v, j);
    }
  }

  /** Assigning a key m does not hold appends the pair. */
  lemma {:induction false} PutNew(m: Params, k: string, v: string)
    requires k !in KeysOf(m)
    ensures Put(m, k, v) == m + [(k, v)]
  {
    if m != [] {
      PutNew(m[1..], k, v);
      assert [m[0]] + (m[1..] + [(k, v)]) == m + [(k, v)];
    }
  }

  /** `m[k] = v` keeps the key order and appends a new key. */
  lemma {:induction false} KeysPut(m: Params, k: string, v: string)
    ensures KeysOf(Put(m, k, v)) == if k in KeysOf(m) then KeysOf(m) else KeysOf(m) + [k]
  {
    if m != [] && m[0].0 != k {
      KeysPut(m[1..], k, v);
      assert KeysOf(m) == [m[0].0] + KeysOf(m[1..]);
    }
  }

  lemma {:induction false} UniqueKeysOf(m: Params)
    ensures UniqueKeys(m) <==> forall i, j :: 0 <= i < j < |m| ==> m[i].0 != m[j].0
  {
    if m != [] {
      UniqueKeysOf(m[1..]);
      assert forall i :: 1 <= i < |m| ==> m[i] == m[1..][i - 1];
    }
  }

  lemma PutUnique(m: Params, k: string, v: string)
    requires UniqueKeys(m)
    ensures UniqueKeys(Put(m, k, v))
  {
    var r := Put(m, k, v);
    KeysPut(m, k, v);
    UniqueKeysOf(m);
    UniqueKeysOf(r);
    assert forall i :: 0 <= i < |r| ==> KeysOf(r)[i] == r[i].0;
  }

  lemma PutHead(m: Params, k: string, v: string)
    requires m != []
    ensures Put(m, k, v) != [] && Put(m, k, v)[0].0 == m[0].0
  {
  }

  /** `dict.update` keeps unique keys unique. */
  lemma {:induction false} UpdateUnique(m: Params, p: Params)
    requires UniqueKeys(m)
    ensures UniqueKeys(Update(m, p))
    decreases |p|
  {
    if p != [] {
      PutUnique(m, p[0].0, p[0].1);
      UpdateUnique(Put(m, p[0].0, p[0].1), p[1..]);
    }
  }

  /** Assigning one more pair at the end of the argument is one more `Put`. */
  lemma {:induction false} UpdateSnoc(m: Params, p: Params, x: (string, string))
    ensures Update(m, p + [x]) == Put(Update(m, p), x.0, x.1)
    decreases |p|
  {
    if p == [] {
      assert [x][1..] == [];
    } else {
      assert (p + [x])[1..] == p[1..] + [x];
      UpdateSnoc(Put(m, p[0].0, p[0].1), p[1..], x);
    }
  }

  /**
    Last write wins: after `m.update(p)`, each key of p maps to p's value,
    and every other key keeps the value it had in m.
   */
  lemma {:induction false} GetUpdate(m: Params, p: Params, k: string)
    requires UniqueKeys(p)
    ensures Get(Update(m, p), k) == if k in KeysOf(p) then Get(p, k) else Get(m, k)
    decreases |p|
  {
    if p != [] {
      GetUpdate(Put(m, p[0].0, p[0].1), p[1..], k);
      GetPut(m, p[0].0, p[0].1, k);
      if k == p[0].0 {
        GetPresent(p[1..], k);
      }
    }
  }

  /** The key set after `m.update(p)` is the union of the two key sets. */
  lemma {:induction false} KeysUpdate(m: Params, p: Params, k: string)
    ensures k in KeysOf(Update(m, p)) <==> k in KeysOf(m) || k in KeysOf(p)
    decreases |p|
  {
    if p != [] {
      KeysPut(m, p[0].0, p[0].1);
      KeysUpdate(Put(m, p[0].0, p[0].1), p[1..], k);
    }
  }

  lemma {:induction false} NewKeysAfter(ks: seq<string>, q: string, qs: seq<string>)
    requires q !in qs
    ensures NewKeys(ks + [q], qs) == NewKeys(ks, qs)
  {
    if qs != [] {
      NewKeysAfter(ks, q, qs[1..]);
    }
  }

  /**
    Order: after `m.update(p)` the keys of m keep their positions and the new
    keys of p follow, in p's order.
   */
  lemma {:induction false} KeysUpdateOrder(m: Params, p: Params)
    requires UniqueKeys(p)
    ensures KeysOf(Update(m, p)) == KeysOf(m) + NewKeys(KeysOf(m), KeysOf(p))
    decreases |p|
  {
    if p != [] {
      var k := p[0].0;
      var m' := Put(m, k, p[0].1);
      var ks, rest := KeysOf(m), KeysOf(p[1..]);
      assert Update(m, p) == Update(m', p[1..]);
      KeysUpdateOrder(m', p[1..]);
      KeysPut(m, k, p[0].1);
      assert KeysOf(p) == [k] + rest;
      assert NewKeys(ks, KeysOf(p)) == (if k in ks then [] else [k]) + NewKeys(ks, rest);
      if k !in ks {
        assert k !in rest;
        NewKeysAfter(ks, k, rest);
        assert KeysOf(m') == ks + [k];
        assert ks + [k] + NewKeys(ks, rest) == ks + ([k] + NewKeys(ks, rest));
      }
    }
  }

  /** When p brings only new keys, `m.update(p)` appends p to m. */
  lemma {:induction false} UpdateFresh(m: Params, p: Params)
    requires UniqueKeys(p)
    requires forall i :: 0 <= i < |p| ==> p[i].0 !in KeysOf(m)
    ensures Update(m, p) == m + p
    decreases |p|
  {
    if p != [] {
      PutNew(m, p[0].0, p[0].1);
      var m' := m + [p[0]];
      forall i | 0 <= i < |p[1..]|
        ensures p[1..][i].0 !in KeysOf(m')
      {
        assert KeysOf(m') == KeysOf(m) + [p[0].0];
        assert p[1..][i].0 in KeysOf(p[1..]);
      }
      UpdateFresh(m', p[1..]);
      assert m' + p[1..] == m + p;
    }
  }

  /** The first key of m is still the first key after `m.update(p)`. */
  lemma {:induction false} UpdateHead(m: Params, p: Params)
    requires m != []
    ensures Update(m, p) != [] && Update(m, p)[0].0 == m[0].0
    decreases |p|
  {
    if p != [] {
      PutHead(m, p[0].0, p[0].1);
      UpdateHead(Put(m, p[0].0, p[0].1), p[1..]);
    }
  }
}
