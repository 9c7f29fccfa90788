/**
 * What a single sequential caller sees of the service: the value `getItem`
 * passes on for a store, the store each call leaves when every request it
 * issues succeeds, and reads after a run of calls. No interleaving: each
 * call's existence check and write happen back to back.
 */
module Sequential {
  import opened Wrappers
  import opened IndexedDb

  /**
   * The value a successful `getItem` emits: the stored record's `value`,
   * or `null` when no record exists (a record object is always truthy).
   */
  function Lookup(s: Store, key: Key): (v: Value)
    ensures key in s ==> v == s[key].value
    ensures key !in s ==> v == Null
    ensures NoNullish(s) ==> (v.IsNullish() <==> key !in s)
  {
    match GetRecord(s, key)
    case Some(record) => record.value
    case None => Null
  }

  /** No record holds `null` or `undefined`: what `setItem`'s precondition keeps true. */
  ghost predicate NoNullish(s: Store)
  {
    forall k :: k in s ==> !s[k].value.IsNullish()
  }

  /** A call a caller makes on the service. */
  datatype Call = SetItemCall(key: Key, data: Value) | RemoveItemCall(key: Key) | ClearCall

  /** Calls that respect `setItem`'s precondition: the data is neither `null` nor `undefined`. */
  ghost predicate Admissible(calls: seq<Call>)
  {
    forall i :: 0 <= i < |calls| && calls[i].SetItemCall? ==> !calls[i].data.IsNullish()
  }

  /**
   * The store a call leaves when the environment lets every request it
   * issues succeed. `setItem` chooses `add` when the item reads as nullish,
   * so a record already holding a nullish value makes its `add` fail and is
   * left as it was; `removeItem` deletes only an item that does not read as
   * nullish.
   */
  function Apply(s: Store, c: Call): (r: Store)
    ensures c.SetItemCall? && (c.key !in s || !s[c.key].value.IsNullish()) ==> c.key in r && r[c.key] == Record(c.data)
    ensures c.SetItemCall? && c.key in s && s[c.key].value.IsNullish() ==> r == s
    ensures c.RemoveItemCall? && c.key in s && !s[c.key].value.IsNullish() ==> c.key !in r
    ensures c.RemoveItemCall? && (c.key !in s || s[c.key].value.IsNullish()) ==> r == s
    ensures c.ClearCall? ==> r == map[]
    ensures !c.ClearCall? ==> forall k :: k != c.key ==> GetRecord(r, k) == GetRecord(s, k)
    ensures NoNullish(s) && (c.SetItemCall? ==> !c.data.IsNullish()) ==> NoNullish(r)
  {
    match c
    case SetItemCall(key, data) =>
      if key in s && s[key].value.IsNullish() then s else s[key := Record(data)]
    case RemoveItemCall(key) =>
      if key in s && !s[key].value.IsNullish() then s - {key} else s
    case ClearCall => map[]
  }

  /** The store after a caller's calls, in order, each one succeeding. */
  function Run(s: Store, calls: seq<Call>): Store
    decreases |calls|
  {
    if calls == [] then s else Run(Apply(s, calls[0]), calls[1..])
  }

  /**
   * A reference for reads after a run, scanning the calls from the last:
   * the data of the last `setItem` of `key`, `null` when a later `removeItem`
   * of `key` or `clear` came after it, and the initial value when no call
   * touched `key`.
   */
  function LastWritten(s: Store, calls: seq<Call>, key: Key): Value
    decreases |calls|
  {
    if calls == [] then Lookup(s, key)
    else
      var init := calls[..|calls| - 1];
      match calls[|calls| - 1]
      case SetItemCall(k, data) => if k == key then data else LastWritten(s, init, key)
      case RemoveItemCall(k) => if k == key then Null else LastWritten(s, init, key)
      case ClearCall => Null
  }

  /** Running one more call is applying it to the store the earlier calls left. */
  lemma {:induction false} RunSnoc(s: Store, calls: seq<Call>, c: Call)
    ensures Run(s, calls + [c]) == Apply(Run(s, calls), c)
    decreases |calls|
  {
    if calls == [] {
      assert [c][1..] == [];
    } else {
      assert (calls + [c])[0] == calls[0];
      assert (calls + [c])[1..] == calls[1..] + [c];
      RunSnoc(Apply(s, calls[0]), calls[1..], c);
    }
  }

  /** Admissible calls never store a nullish value. */
  lemma {:induction false} RunKeepsNoNullish(s: Store, calls: seq<Call>)
    requires NoNullish(s) && Admissible(calls)
    ensures NoNullish(Run(s, calls))
    decreases |calls|
  {
    if calls != [] {
      assert calls[0].SetItemCall? ==> !calls[0].data.IsNullish();
      assert Admissible(calls[1..]) by {
        forall i | 0 <= i < |calls[1..]| && calls[1..][i].SetItemCall?
          ensures !calls[1..][i].data.IsNullish()
        {
          assert calls[1..][i] == calls[i + 1];
        }
      }
      RunKeepsNoNullish(Apply(s, calls[0]), calls[1..]);
    }
  }

  /**
   * Write-then-read consistency for a sequential caller: after admissible
   * calls from a store without nullish values, `getItem(key)` emits the last
   * value written to `key`, or `null` after a removal or a clear.
   */
  lemma {:induction false} ReadsLastWritten(s: Store, calls: seq<Call>, key: Key)
    requires NoNullish(s) && Admissible(calls)
    ensures Lookup(Run(s, calls), key) == LastWritten(s, calls, key)
    decreases |calls|
  {
    if calls != [] {
      var init, c := calls[..|calls| - 1], calls[|calls| - 1];
      assert calls == init + [c];
      assert Admissible(init) by {
        forall i | 0 <= i < |init| && init[i].SetItemCall?
          ensures !init[i].data.IsNullish()
        {
          assert init[i] == calls[i];
        }
      }
      RunSnoc(s, init, c);
      RunKeepsNoNullish(s, init);
      ReadsLastWritten(s, init, key);
    }
  }

  /** After `clear()`, every key reads as absent: `null`, not an error. */
  lemma ClearThenGet(s: Store, calls: seq<Call>, key: Key)
    ensures Lookup(Run(s, calls + [ClearCall]), key) == Null
  {
    RunSnoc(s, calls, ClearCall);
  }

  /** Overwrite: `setItem(k, v1)` then `setItem(k, v2)` reads back `v2`, with no duplicate record. */
  lemma SetTwiceReadsSecond(s: Store, key: Key, v1: Value, v2: Value)
    requires NoNullish(s) && !v1.IsNullish() && !v2.IsNullish()
    ensures Lookup(Run(s, [SetItemCall(key, v1), SetItemCall(key, v2)]), key) == v2
    ensures Run(s, [SetItemCall(key, v1), SetItemCall(key, v2)]).Keys == s.Keys + {key}
  {
    var calls := [SetItemCall(key, v1), SetItemCall(key, v2)];
    var after1 := Apply(s, calls[0]);
    assert calls[1..] == [SetItemCall(key, v2)];
    assert [SetItemCall(key, v2)][1..] == [];
    assert Run(s, calls) == Run(after1, [SetItemCall(key, v2)]);
    assert Run(after1, [SetItemCall(key, v2)]) == Run(Apply(after1, SetItemCall(key, v2)), []);
  }
}
