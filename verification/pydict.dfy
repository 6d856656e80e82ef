/** Python dictionaries keyed by strings, where the order of keys can be observed
    (`list(d.keys())`, `for k, v in d.items()`), and the last-write-wins
    association a sequence of `d[k] = v` assignments builds. */
module PyDict {
  import opened Wrappers

  /** A Python `dict`: `keys` in first-insertion order, `items` the value held now. */
  datatype Dict<V> = Dict(keys: seq<string>, items: map<string, V>)
  {
    ghost predicate Valid()
    {
      && (forall i, j :: 0 <= i < j < |keys| ==> keys[i] != keys[j])
      && (forall k :: k in items <==> k in keys)
    }

    /** `d[k] = v`: a new key goes to the end, an existing key keeps its place. */
    function Put(k: string, v: V): (d: Dict<V>)
      ensures Valid() ==> d.Valid()
      ensures d.items == items[k := v]
      ensures k in items ==> d.keys == keys
      ensures k !in items ==> d.keys == keys + [k]
    {
      Dict(if k in items then keys else keys + [k], items[k := v])
    }
  }

  function EmptyDict<V>(): (d: Dict<V>)
    ensures d.Valid() && d.items == map[]
  {
    Dict([], map[])
  }

  /** The map a sequence of assignments `d[k] = v` leaves behind; `None` is a skipped row. */
  function Assoc<K, V>(entries: seq<Option<(K, V)>>): map<K, V>
  {
    if entries == [] then map[]
    else
      var m := Assoc(entries[..|entries| - 1]);
      match entries[|entries| - 1]
      case None => m
      case Some(kv) => m[kv.0 := kv.1]
  }

  /** The same assignments into a Python dict. */
  function DictOf<V>(entries: seq<Option<(string, V)>>): Dict<V>
  {
    if entries == [] then EmptyDict()
    else
      var d := DictOf(entries[..|entries| - 1]);
      match entries[|entries| - 1]
      case None => d
      case Some(kv) => d.Put(kv.0, kv.1)
  }

  /** Keys of `ks` not in `m`, in order. */
  function Unseen<V>(ks: seq<string>, m: map<string, V>): seq<string>
  {
    if ks == [] then []
    else Unseen(ks[..|ks| - 1], m) + (if ks[|ks| - 1] in m then [] else [ks[|ks| - 1]])
  }

  /** `d[k] = items[k]` for each `k` of `ks` in turn. */
  function PutEach<V>(d: Dict<V>, ks: seq<string>, items: map<string, V>): Dict<V>
    requires forall k :: k in ks ==> k in items
  {
    if ks == [] then d
    else PutEach(d, ks[..|ks| - 1], items).Put(ks[|ks| - 1], items[ks[|ks| - 1]])
  }

  /** `{**a, **b}`: a copy of `a` into which the items of `b` are written in
      order, so `b` wins on a shared key and keeps `a`'s position for it. */
  function Merge<V>(a: Dict<V>, b: Dict<V>): (r: Dict<V>)
    requires a.Valid() && b.Valid()
    ensures r.Valid()
    ensures r.items == a.items + b.items
    ensures r.keys == a.keys + Unseen(b.keys, a.items)
  {
    PutEachProps(a, b.keys, b.items);
    PutEachUnion(a, b);
    PutEach(a, b.keys, b.items)
  }

  lemma PutEachUnion<V>(a: Dict<V>, b: Dict<V>)
    requires a.Valid() && b.Valid()
    ensures PutEach(a, b.keys, b.items).items == a.items + b.items
  {
    PutEachItems(a, b.keys, b.items);
  }

  // ---------------------------------------------------------------------
  // Lemmas

  /** A key is bound exactly when some assignment wrote it. */
  lemma {:induction false} AssocDomain<K, V>(entries: seq<Option<(K, V)>>, k: K)
    ensures k in Assoc(entries) <==> exists j :: 0 <= j < |entries| && entries[j].Some? && entries[j].value.0 == k
  {
    if entries != [] {
      var init := entries[..|entries| - 1];
      AssocDomain(init, k);
      if k in Assoc(init) {
        var j :| 0 <= j < |init| && init[j].Some? && init[j].value.0 == k;
        assert entries[j] == init[j];
      }
      if j :| 0 <= j < |entries| && entries[j].Some? && entries[j].value.0 == k {
        if j < |init| {
          assert init[j] == entries[j];
        }
      }
    }
  }

  /** The value bound to a key is the one written by the last assignment to it. */
  lemma {:induction false} AssocLastWins<K, V>(entries: seq<Option<(K, V)>>, j: nat)
    requires j < |entries| && entries[j].Some?
    requires forall j' :: j < j' < |entries| && entries[j'].Some? ==> entries[j'].value.0 != entries[j].value.0
    ensures entries[j].value.0 in Assoc(entries)
    ensures Assoc(entries)[entries[j].value.0] == entries[j].value.1
  {
    var init := entries[..|entries| - 1];
    if j < |entries| - 1 {
      forall j' | j < j' < |init| && init[j'].Some?
        ensures init[j'].value.0 != init[j].value.0
      {
        assert init[j'] == entries[j'];
      }
      AssocLastWins(init, j);
    }
  }

  /** Building a dict and building the association agree, and the dict stays valid. */
  lemma {:induction false} DictOfAssoc<V>(entries: seq<Option<(string, V)>>)
    ensures DictOf(entries).Valid()
    ensures DictOf(entries).items == Assoc(entries)
  {
    if entries != [] {
      DictOfAssoc(entries[..|entries| - 1]);
    }
  }

  lemma PutEachProps<V>(d: Dict<V>, ks: seq<string>, items: map<string, V>)
    requires d.Valid()
    requires forall i, j :: 0 <= i < j < |ks| ==> ks[i] != ks[j]
    requires forall k :: k in ks ==> k in items
    ensures PutEach(d, ks, items).Valid()
    ensures PutEach(d, ks, items).keys == d.keys + Unseen(ks, d.items)
    ensures forall k :: k in PutEach(d, ks, items).items <==> k in d.items || k in ks
    ensures forall k :: k in ks ==> PutEach(d, ks, items).items[k] == items[k]
    ensures forall k :: k !in ks && k in d.items ==> PutEach(d, ks, items).items[k] == d.items[k]
  {
    PutEachValid(d, ks, items);
    PutEachKeys(d, ks, items);
    PutEachItems(d, ks, items);
  }

  lemma {:induction false} PutEachValid<V>(d: Dict<V>, ks: seq<string>, items: map<string, V>)
    requires d.Valid()
    requires forall k :: k in ks ==> k in items
    ensures PutEach(d, ks, items).Valid()
  {
    if ks != [] {
      PutEachValid(d, ks[..|ks| - 1], items);
    }
  }

  lemma {:induction false} PutEachItems<V>(d: Dict<V>, ks: seq<string>, items: map<string, V>)
    requires forall k :: k in ks ==> k in items
    ensures forall k :: k in PutEach(d, ks, items).items <==> k in d.items || k in ks
    ensures forall k :: k in ks ==> PutEach(d, ks, items).items[k] == items[k]
    ensures forall k :: k !in ks && k in d.items ==> PutEach(d, ks, items).items[k] == d.items[k]
  {
    if ks != [] {
      var init := ks[..|ks| - 1];
      PutEachItems(d, init, items);
      assert ks == init + [ks[|ks| - 1]];
    }
  }

  lemma {:induction false} PutEachKeys<V>(d: Dict<V>, ks: seq<string>, items: map<string, V>)
    requires forall i, j :: 0 <= i < j < |ks| ==> ks[i] != ks[j]
    requires forall k :: k in ks ==> k in items
    ensures PutEach(d, ks, items).keys == d.keys + Unseen(ks, d.items)
  {
    if ks != [] {
      var init := ks[..|ks| - 1];
      var last := ks[|ks| - 1];
      PutEachKeys(d, init, items);
      PutEachItems(d, init, items);
      assert last !in init;
    }
  }

  /** Every bound value was written by some assignment. */
  lemma {:induction false} AssocValues<K, V>(entries: seq<Option<(K, V)>>, k: K)
    requires k in Assoc(entries)
    ensures exists j :: 0 <= j < |entries| && entries[j] == Some((k, Assoc(entries)[k]))
  {
    var init := entries[..|entries| - 1];
    var last := entries[|entries| - 1];
    if last.Some? && last.value.0 == k {
      assert entries[|entries| - 1] == Some((k, Assoc(entries)[k]));
    } else {
      AssocValues(init, k);
      var j :| 0 <= j < |init| && init[j] == Some((k, Assoc(init)[k]));
      assert entries[j] == init[j];
    }
  }

  /** One more assignment. */
  lemma AssocSnoc<K, V>(entries: seq<Option<(K, V)>>, e: Option<(K, V)>)
    ensures Assoc(entries + [e]) == match e case None => Assoc(entries) case Some(kv) => Assoc(entries)[kv.0 := kv.1]
  {
    assert (entries + [e])[..|entries|] == entries;
  }

  lemma DictOfSnoc<V>(entries: seq<Option<(string, V)>>, e: Option<(string, V)>)
    ensures DictOf(entries + [e]) == match e case None => DictOf(entries) case Some(kv) => DictOf(entries).Put(kv.0, kv.1)
  {
    assert (entries + [e])[..|entries|] == entries;
  }
}
