/** An ordered map from identifiers, as `BTreeMap<[u8; 32], V>` is used by `routing/src/lib.rs`:
    key-value pairs in ascending key order. */
module OrderedMap {
  import opened Bits
  import opened Wire

  type OMap<V> = seq<(Id, V)>

  /** Lexicographic order on byte strings. */
  predicate Less(a: seq<byte>, b: seq<byte>)
    decreases a
  {
    b != [] && (a == [] || a[0] < b[0] || (a[0] == b[0] && Less(a[1..], b[1..])))
  }

  lemma {:induction false} LessTransitive(a: seq<byte>, b: seq<byte>, c: seq<byte>)
    requires Less(a, b) && Less(b, c)
    ensures Less(a, c)
    decreases a
  {
    if a != [] && a[0] == b[0] == c[0] {
      LessTransitive(a[1..], b[1..], c[1..]);
    }
  }

  lemma {:induction false} LessTrichotomy(a: seq<byte>, b: seq<byte>)
    ensures (if Less(a, b) then 1 else 0) + (if Less(b, a) then 1 else 0) + (if a == b then 1 else 0) == 1
    decreases a
  {
    if a != [] && b != [] && a[0] == b[0] {
      LessTrichotomy(a[1..], b[1..]);
      assert a == [a[0]] + a[1..] && b == [b[0]] + b[1..];
    }
  }

  /** Of two different identifiers the smaller one has the smaller byte where they first differ. */
  lemma {:induction false} LessAtFirstDifference(a: seq<byte>, b: seq<byte>, k: nat)
    requires k < |a| && k < |b| && a[..k] == b[..k] && a[k] != b[k]
    ensures Less(a, b) <==> a[k] < b[k]
    decreases k
  {
    if k > 0 {
      assert a[0] == a[..k][0] == b[0];
      assert a[1..][..k - 1] == a[..k][1..] == b[1..][..k - 1];
      LessAtFirstDifference(a[1..], b[1..], k - 1);
    }
  }

  ghost predicate AllAbove<V>(k: Id, m: OMap<V>) {
    forall i :: 0 <= i < |m| ==> Less(k, m[i].0)
  }

  ghost predicate Ascending<V>(m: OMap<V>)
    decreases m
  {
    m == [] || (AllAbove(m[0].0, m[1..]) && Ascending(m[1..]))
  }

  function ToMap<V>(m: OMap<V>): map<Id, V>
    decreases m
  {
    if m == [] then map[] else ToMap(m[1..])[m[0].0 := m[0].1]
  }

  function Insert<V>(m: OMap<V>, k: Id, v: V): OMap<V>
    decreases m
  {
    if m == [] || Less(k, m[0].0) then [(k, v)] + m
    else if k == m[0].0 then [(k, v)] + m[1..]
    else [m[0]] + Insert(m[1..], k, v)
  }

  function Remove<V>(m: OMap<V>, k: Id): OMap<V>
    decreases m
  {
    if m == [] then m
    else if k == m[0].0 then m[1..]
    else [m[0]] + Remove(m[1..], k)
  }

  lemma {:induction false} AboveAllAbove<V>(k: Id, l: Id, m: OMap<V>)
    requires Less(k, l) && AllAbove(l, m)
    ensures AllAbove(k, m)
  {
    forall i | 0 <= i < |m|
      ensures Less(k, m[i].0)
    {
      LessTransitive(k, l, m[i].0);
    }
  }

  lemma {:induction false} NotAbove<V>(k: Id, m: OMap<V>)
    requires AllAbove(k, m)
    ensures k !in ToMap(m)
    decreases m
  {
    if m != [] {
      LessTrichotomy(k, m[0].0);
      NotAbove(k, m[1..]);
    }
  }

  lemma AboveCons<V>(l: Id, e: (Id, V), m: OMap<V>)
    requires Less(l, e.0) && AllAbove(l, m)
    ensures AllAbove(l, [e] + m)
  {
  }

  lemma {:induction false} InsertAbove<V>(l: Id, m: OMap<V>, k: Id, v: V)
    requires Less(l, k) && AllAbove(l, m)
    ensures AllAbove(l, Insert(m, k, v))
    decreases m
  {
    if m == [] || Less(k, m[0].0) {
      AboveCons(l, (k, v), m);
    } else if k == m[0].0 {
      AboveCons(l, (k, v), m[1..]);
    } else {
      InsertAbove(l, m[1..], k, v);
      AboveCons(l, m[0], Insert(m[1..], k, v));
    }
  }

  lemma {:induction false} RemoveAbove<V>(l: Id, m: OMap<V>, k: Id)
    requires AllAbove(l, m)
    ensures AllAbove(l, Remove(m, k))
    decreases m
  {
    if m != [] && k != m[0].0 {
      RemoveAbove(l, m[1..], k);
      AboveCons(l, m[0], Remove(m[1..], k));
    }
  }

  /** Inserting updates the map and keeps the order. */
  lemma {:induction false} InsertMeaning<V>(m: OMap<V>, k: Id, v: V)
    requires Ascending(m)
    ensures Ascending(Insert(m, k, v)) && ToMap(Insert(m, k, v)) == ToMap(m)[k := v]
    decreases m
  {
    if m == [] || Less(k, m[0].0) {
      if m != [] {
        AboveAllAbove(k, m[0].0, m[1..]);
        AboveCons(k, m[0], m[1..]);
        assert [m[0]] + m[1..] == m;
      }
      assert ([(k, v)] + m)[1..] == m;
    } else if k == m[0].0 {
      assert ([(k, v)] + m[1..])[1..] == m[1..];
    } else {
      LessTrichotomy(k, m[0].0);
      InsertMeaning(m[1..], k, v);
      InsertAbove(m[0].0, m[1..], k, v);
      assert Insert(m, k, v)[1..] == Insert(m[1..], k, v);
    }
  }

  /** Removing deletes the key and keeps the order. */
  lemma {:induction false} RemoveMeaning<V>(m: OMap<V>, k: Id)
    requires Ascending(m)
    ensures Ascending(Remove(m, k)) && ToMap(Remove(m, k)) == ToMap(m) - {k}
    decreases m
  {
    if m != [] {
      if k == m[0].0 {
        NotAbove(k, m[1..]);
      } else {
        RemoveMeaning(m[1..], k);
        RemoveAbove(m[0].0, m[1..], k);
        assert Remove(m, k)[1..] == Remove(m[1..], k);
      }
    }
  }

  /** The pairs hold what the map holds. */
  lemma {:induction false} PairsAreMap<V>(m: OMap<V>, i: nat)
    requires Ascending(m) && i < |m|
    ensures m[i].0 in ToMap(m) && ToMap(m)[m[i].0] == m[i].1
    decreases m
  {
    if i > 0 {
      PairsAreMap(m[1..], i - 1);
      LessTrichotomy(m[0].0, m[1..][i - 1].0);
    }
  }
}
