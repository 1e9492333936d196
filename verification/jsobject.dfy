/**
 * A JavaScript object used as a dictionary: string keys in insertion order (which is
 * what `Object.keys` and `for … in` report) and the value of each key.
 */
module JsObject {
  import opened Wrappers
  import Sorting

  datatype OrdMap<V> = OrdMap(keys: seq<string>, vals: map<string, V>) {

    /** The keys listed are exactly the keys present, each once. */
    ghost predicate Valid() {
      && (forall i, j :: 0 <= i < j < |keys| ==> keys[i] != keys[j])
      && (forall k :: k in vals <==> k in keys)
    }

    function Get(k: string): (r: Option<V>)
      ensures r.Some? <==> k in vals
      ensures r.Some? ==> r.value == vals[k]
    {
      if k in vals then Some(vals[k]) else None
    }

    /** `o[k] = v`: a new key goes to the end, an existing key keeps its place. */
    function Put(k: string, v: V): (r: OrdMap<V>)
      requires Valid()
      ensures r.Valid()
      ensures r.vals == vals[k := v]
      ensures k in vals ==> r.keys == keys
      ensures k !in vals ==> r.keys == keys + [k]
    {
      if k in vals then OrdMap(keys, vals[k := v]) else OrdMap(keys + [k], vals[k := v])
    }

    /** The entries for `ks`, in that order. */
    function EntriesOf(ks: seq<string>): (r: seq<(string, V)>)
      requires forall k :: k in ks ==> k in vals
      ensures EntryKeys(r) == ks
      ensures forall i :: 0 <= i < |r| ==> r[i].0 in vals && r[i].1 == vals[r[i].0]
    {
      if |ks| == 0 then [] else [(ks[0], vals[ks[0]])] + EntriesOf(ks[1..])
    }

    /** The entries with keys in ascending order: `Object.keys(o).sort()`. */
    function SortedEntries(): (r: seq<(string, V)>)
      requires Valid()
      ensures Sorting.Sorted(EntryKeys(r))
      ensures multiset(EntryKeys(r)) == multiset(keys)
      ensures forall i :: 0 <= i < |r| ==> r[i].0 in vals && r[i].1 == vals[r[i].0]
    {
      var ks := Sorting.Sort(keys);
      assert forall k :: k in ks ==> k in vals by {
        forall k | k in ks ensures k in vals {
          assert k in multiset(ks);
        }
      }
      EntriesOf(ks)
    }
  }

  /** The sorted entries are exactly the entries of the table. */
  lemma SortedEntriesMembers<V>(m: OrdMap<V>)
    requires m.Valid()
    ensures forall e :: e in m.SortedEntries() <==> e.0 in m.vals && e.1 == m.vals[e.0]
  {
    var es := m.SortedEntries();
    forall e: (string, V) | e.0 in m.vals && e.1 == m.vals[e.0] ensures e in es {
      assert e.0 in multiset(m.keys);
      assert e.0 in multiset(EntryKeys(es));
      var i :| 0 <= i < |es| && EntryKeys(es)[i] == e.0;
      assert es[i] == e;
    }
  }

  function EntryKeys<V>(r: seq<(string, V)>): (ks: seq<string>)
    ensures |ks| == |r| && forall i :: 0 <= i < |r| ==> ks[i] == r[i].0
  {
    if |r| == 0 then [] else [r[0].0] + EntryKeys(r[1..])
  }

  function Empty<V>(): (r: OrdMap<V>)
    ensures r.Valid() && r.keys == [] && r.vals == map[]
  {
    OrdMap([], map[])
  }
}
