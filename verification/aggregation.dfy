/**
  Group-by aggregation over dictionary records: the records are partitioned
  by the value they hold under a key field, groups keep input order, and a
  caller-supplied aggregator turns each group into one result value.
*/
module DataAggregation {

  /** A field value of a record. */
  datatype Value = Str(s: string) | Int(i: int)

  /** A record maps field names to values. */
  type Record = map<string, Value>

  /** Every record has the key field (otherwise the lookup fails). */
  predicate HasKey(data: seq<Record>, key: string) {
    forall i :: 0 <= i < |data| ==> key in data[i]
  }

  /** The records whose key field equals `k`, in input order. */
  function Group(data: seq<Record>, key: string, k: Value): (g: seq<Record>)
    requires HasKey(data, key)
    ensures |g| <= |data|
  {
    if data == [] then []
    else
      var n := |data| - 1;
      Group(data[..n], key, k) + (if data[n][key] == k then [data[n]] else [])
  }

  /** The group of `k` holds exactly the records whose key field is `k`, each as often as
      it occurs in the input, and nothing else. */
  lemma {:induction false} GroupMembers(data: seq<Record>, key: string, k: Value)
    requires HasKey(data, key)
    ensures forall r :: multiset(Group(data, key, k))[r] == if key in r && r[key] == k then multiset(data)[r] else 0
    decreases |data|
  {
    if data != [] {
      var n := |data| - 1;
      var prefix, x := data[..n], data[n];
      GroupMembers(prefix, key, k);
      assert data == prefix + [x];
      var tail := if x[key] == k then [x] else [];
      assert Group(data, key, k) == Group(prefix, key, k) + tail;
      assert multiset(Group(data, key, k)) == multiset(Group(prefix, key, k)) + multiset(tail);
      assert multiset(data) == multiset(prefix) + multiset([x]);
    }
  }

  /** The distinct key values, in the order of their first occurrence. */
  function Keys(data: seq<Record>, key: string): (ks: seq<Value>)
    requires HasKey(data, key)
    ensures forall k :: k in ks <==> exists i :: 0 <= i < |data| && data[i][key] == k
    ensures forall i, j :: 0 <= i < j < |ks| ==> ks[i] != ks[j]
  {
    if data == [] then []
    else
      var n := |data| - 1;
      var prev := Keys(data[..n], key);
      assert forall i :: 0 <= i < n ==> data[..n][i] == data[i];
      if data[n][key] in prev then prev else prev + [data[n][key]]
  }

  /** The total size of the groups of the given keys. */
  function GroupSizes(data: seq<Record>, key: string, ks: seq<Value>): nat
    requires HasKey(data, key)
  {
    if ks == [] then 0
    else |Group(data, key, ks[0])| + GroupSizes(data, key, ks[1..])
  }

  /** The dictionary comprehension: the aggregator applied to every group. */
  function ApplyAggregator<R>(grouped: map<Value, seq<Record>>, aggregator: seq<Record> -> R): (result: map<Value, R>)
    ensures result.Keys == grouped.Keys
    ensures forall k :: k in grouped ==> result[k] == aggregator(grouped[k])
  {
    map k | k in grouped :: aggregator(grouped[k])
  }

  /** The result of aggregating `data` by `key`. */
  ghost function Aggregated<R>(data: seq<Record>, key: string, aggregator: seq<Record> -> R): map<Value, R>
    requires HasKey(data, key)
  {
    map k | k in Keys(data, key) :: aggregator(Group(data, key, k))
  }

  /** Appending a record grows exactly the group of its own key value, by that record. */
  lemma GroupSnoc(data: seq<Record>, key: string, x: Record, k: Value)
    requires HasKey(data, key) && key in x
    ensures HasKey(data + [x], key)
    ensures Group(data + [x], key, k) == Group(data, key, k) + (if x[key] == k then [x] else [])
  {
    assert (data + [x])[..|data|] == data;
  }

  /** Appending a record adds its key value to the keys exactly when it is new. */
  lemma KeysSnoc(data: seq<Record>, key: string, x: Record)
    requires HasKey(data, key) && key in x
    ensures HasKey(data + [x], key)
    ensures Keys(data + [x], key) == if x[key] in Keys(data, key) then Keys(data, key) else Keys(data, key) + [x[key]]
  {
    assert (data + [x])[..|data|] == data;
  }

  /** A value that no record holds under the key field has an empty group. */
  lemma {:induction false} GroupOfAbsentKey(data: seq<Record>, key: string, k: Value)
    requires HasKey(data, key)
    requires k !in Keys(data, key)
    ensures Group(data, key, k) == []
    decreases |data|
  {
    if data != [] {
      var n := |data| - 1;
      assert forall i :: 0 <= i < n ==> data[..n][i] == data[i];
      GroupOfAbsentKey(data[..n], key, k);
    }
  }

  lemma {:induction false} GroupSizesSnoc(data: seq<Record>, key: string, x: Record, ks: seq<Value>)
    requires HasKey(data, key) && key in x
    ensures HasKey(data + [x], key)
    ensures GroupSizes(data + [x], key, ks) == GroupSizes(data, key, ks) + multiset(ks)[x[key]]
    decreases |ks|
  {
    if ks != [] {
      GroupSnoc(data, key, x, ks[0]);
      GroupSizesSnoc(data, key, x, ks[1..]);
      assert ks == [ks[0]] + ks[1..];
    }
  }

  lemma {:induction false} GroupSizesAppend(data: seq<Record>, key: string, ks: seq<Value>, k: Value)
    requires HasKey(data, key)
    ensures GroupSizes(data, key, ks + [k]) == GroupSizes(data, key, ks) + |Group(data, key, k)|
    decreases |ks|
  {
    if ks != [] {
      GroupSizesAppend(data, key, ks[1..], k);
      assert (ks + [k])[1..] == ks[1..] + [k];
    }
  }

  /** No record is lost or duplicated: the group sizes add up to the number of records. */
  lemma {:induction false} GroupsPartitionData(data: seq<Record>, key: string)
    requires HasKey(data, key)
    ensures GroupSizes(data, key, Keys(data, key)) == |data|
    decreases |data|
  {
    if data != [] {
      var n := |data| - 1;
      var prefix, x := data[..n], data[n];
      assert data == prefix + [x];
      var prev := Keys(prefix, key);
      GroupsPartitionData(prefix, key);
      GroupSizesSnoc(prefix, key, x, prev);
      if x[key] in prev {
        DistinctCountsOnce(prev, x[key]);
      } else {
        assert multiset(prev)[x[key]] == 0;
        GroupSizesAppend(data, key, prev, x[key]);
        GroupSnoc(prefix, key, x, x[key]);
        GroupOfAbsentKey(prefix, key, x[key]);
      }
    }
  }

  /** A value that occurs in a sequence of distinct values occurs once. */
  lemma {:induction false} DistinctCountsOnce(ks: seq<Value>, k: Value)
    requires forall i, j :: 0 <= i < j < |ks| ==> ks[i] != ks[j]
    requires k in ks
    ensures multiset(ks)[k] == 1
    decreases |ks|
  {
    assert ks == [ks[0]] + ks[1..];
    if ks[0] == k {
      assert k !in ks[1..];
    } else {
      DistinctCountsOnce(ks[1..], k);
    }
  }

  /** The grouping loop: each record is appended to the list of its key value, a new key
      value being added when first seen. */
  method GroupBy(data: seq<Record>, key: string) returns (order: seq<Value>, grouped: map<Value, seq<Record>>)
    requires HasKey(data, key)
    ensures order == Keys(data, key)
    ensures forall k :: k in grouped <==> k in order
    ensures forall k :: k in grouped ==> grouped[k] == Group(data, key, k)
  {
    order, grouped := [], map[];
    for i := 0 to |data|
      invariant HasKey(data[..i], key)
      invariant order == Keys(data[..i], key)
      invariant forall k :: k in grouped <==> k in order
      invariant forall k :: k in grouped ==> grouped[k] == Group(data[..i], key, k)
    {
      var item := data[i];
      var k := item[key];
      assert data[..i + 1] == data[..i] + [item];
      KeysSnoc(data[..i], key, item);
      GroupSnoc(data[..i], key, item, k);
      if k in grouped {
        grouped := grouped[k := grouped[k] + [item]];
      } else {
        GroupOfAbsentKey(data[..i], key, k);
        grouped := grouped[k := [item]];
        order := order + [k];
      }
      forall k' | k' in grouped && k' != k ensures grouped[k'] == Group(data[..i + 1], key, k') {
        GroupSnoc(data[..i], key, item, k');
      }
    }
    assert data[..|data|] == data;
  }

  /** Aggregation: group the records by the key field, then apply the aggregator to each
      group. The result has one entry per distinct key value, listed in `order` in the
      order of first occurrence. */
  method AggregateData<R>(data: seq<Record>, key: string, aggregator: seq<Record> -> R)
    returns (order: seq<Value>, result: map<Value, R>)
    requires HasKey(data, key)
    ensures result == Aggregated(data, key, aggregator)
    ensures order == Keys(data, key) && forall k :: k in result <==> k in order
    ensures forall k :: k in result <==> exists i :: 0 <= i < |data| && data[i][key] == k
    ensures forall k :: k in result ==> result[k] == aggregator(Group(data, key, k))
    ensures data == [] ==> result == map[]
  {
    var grouped;
    order, grouped := GroupBy(data, key);
    result := ApplyAggregator(grouped, aggregator);
  }

  /** The sample aggregator: the sum of the integer `value` fields of a group. */
  function SumValues(group: seq<Record>): int {
    if group == [] then 0
    else
      var n := |group| - 1;
      SumValues(group[..n]) + (if "value" in group[n] && group[n]["value"].Int? then group[n]["value"].i else 0)
  }

  /** The sample records grouped by `category`: fruits first, holding the first two
      records, then vegetables, holding the third. */
  lemma SampleGroups(r0: Record, r1: Record, r2: Record)
    requires r0 == map["category" := Str("fruits"), "value" := Int(10)]
    requires r1 == map["category" := Str("fruits"), "value" := Int(20)]
    requires r2 == map["category" := Str("vegetables"), "value" := Int(15)]
    ensures HasKey([r0, r1, r2], "category")
    ensures Keys([r0, r1, r2], "category") == [Str("fruits"), Str("vegetables")]
    ensures Group([r0, r1, r2], "category", Str("fruits")) == [r0, r1]
    ensures Group([r0, r1, r2], "category", Str("vegetables")) == [r2]
  {
    var fruits, vegetables := Str("fruits"), Str("vegetables");
    assert r0["category"] == fruits && r1["category"] == fruits && r2["category"] == vegetables;
    assert [r0] == [] + [r0] && [r0, r1] == [r0] + [r1] && [r0, r1, r2] == [r0, r1] + [r2];
    KeysSnoc([], "category", r0);
    KeysSnoc([r0], "category", r1);
    KeysSnoc([r0, r1], "category", r2);
    GroupSnoc([], "category", r0, fruits);
    GroupSnoc([r0], "category", r1, fruits);
    GroupSnoc([r0, r1], "category", r2, fruits);
    GroupSnoc([], "category", r0, vegetables);
    GroupSnoc([r0], "category", r1, vegetables);
    GroupSnoc([r0, r1], "category", r2, vegetables);
  }

  /** Summing `value` per `category` over the three sample records gives 30 for fruits
      and 15 for vegetables. */
  lemma SampleAggregation(r0: Record, r1: Record, r2: Record)
    requires r0 == map["category" := Str("fruits"), "value" := Int(10)]
    requires r1 == map["category" := Str("fruits"), "value" := Int(20)]
    requires r2 == map["category" := Str("vegetables"), "value" := Int(15)]
    ensures HasKey([r0, r1, r2], "category")
    ensures var totals := Aggregated([r0, r1, r2], "category", SumValues);
            totals.Keys == {Str("fruits"), Str("vegetables")} && totals[Str("fruits")] == 30 && totals[Str("vegetables")] == 15
  {
    SampleGroups(r0, r1, r2);
    assert SumValues([r0, r1]) == 30 by {
      assert r0["value"] == Int(10) && r1["value"] == Int(20);
      assert [r0, r1][..1] == [r0] && [r0][..0] == [];
      assert SumValues([r0]) == 10;
    }
    assert SumValues([r2]) == 15 by {
      assert r2["value"] == Int(15);
      assert [r2][..0] == [];
    }
  }
}
