/** Python dictionaries whose iteration order matters: insertion order, with updates in place. */
module Dictionaries {

  type Dict<V> = seq<(string, V)>

  /** `d[key] = value` */
  function Put<V>(d: Dict<V>, key: string, value: V): Dict<V> {
    if d == [] then [(key, value)]
    else if d[0].0 == key then [(key, value)] + d[1..]
    else [d[0]] + Put(d[1..], key, value)
  }

  /** `list(d.values())` */
  function Values<V>(d: Dict<V>): seq<V> {
    seq(|d|, i requires 0 <= i < |d| => d[i].1)
  }

  predicate HasKey<V>(d: Dict<V>, key: string) {
    exists i :: 0 <= i < |d| && d[i].0 == key
  }

  predicate DistinctKeys<V>(d: Dict<V>) {
    forall i, j :: 0 <= i < j < |d| ==> d[i].0 != d[j].0
  }

  lemma {:induction false} PutAddsOrReplaces<V>(d: Dict<V>, key: string, value: V)
    requires DistinctKeys(d)
    ensures DistinctKeys(Put(d, key, value))
    ensures (key, value) in Put(d, key, value)
    ensures forall p :: p in Put(d, key, value) ==> p == (key, value) || (p in d && p.0 != key)
    ensures forall p :: p in d && p.0 != key ==> p in Put(d, key, value)
  {
    if d != [] {
      assert d == [d[0]] + d[1..];
      forall i, j | 0 <= i < j < |d[1..]| ensures d[1..][i].0 != d[1..][j].0 {
        assert d[i + 1].0 != d[j + 1].0;
      }
      if d[0].0 == key {
        forall p | p in d[1..] ensures p.0 != key {
          var i :| 0 <= i < |d[1..]| && d[1..][i] == p;
          assert d[0].0 != d[i + 1].0;
        }
      } else {
        PutAddsOrReplaces(d[1..], key, value);
        var rest := Put(d[1..], key, value);
        forall j | 0 <= j < |rest| ensures rest[j].0 != d[0].0 {
          assert rest[j] in rest;
          if rest[j] in d[1..] {
            var i :| 0 <= i < |d[1..]| && d[1..][i] == rest[j];
            assert d[0].0 != d[i + 1].0;
          }
        }
      }
    }
  }

  lemma {:induction false} PutNewKeyAppends<V>(d: Dict<V>, key: string, value: V)
    requires forall i :: 0 <= i < |d| ==> d[i].0 != key
    ensures Put(d, key, value) == d + [(key, value)]
  {
    if d != [] {
      PutNewKeyAppends(d[1..], key, value);
      assert d == [d[0]] + d[1..];
    }
  }
}
