/**
 * The sequential part of `Run` in mr/mr.go: one mapper per input record,
 * named by the decimal string of its position; the grouping of the merged
 * mapper output by key; one reducer per key.  The merged stream that
 * `fanIn` delivers is any interleaving of the mappers' output, so it is a
 * parameter here: every property holds for every order of arrival.
 */
module MapReduce {

  /** `Tuple`: a key and a value. */
  datatype Tuple = Tuple(first: string, second: string)

  /** The arguments one mapper goroutine hands to `Job.Map`. */
  datatype MapCall = MapCall(key: string, value: string)

  /** The arguments one reducer goroutine hands to `Job.Reduce`. */
  datatype ReduceCall = ReduceCall(key: string, values: seq<string>)

  // ---------------------------------------------------------------------
  // Grouping (lines 34-44)
  // ---------------------------------------------------------------------

  /** The keys that occur in the stream. */
  ghost function KeysOf(stream: seq<Tuple>): set<string>
  {
    set t | t in stream :: t.first
  }

  /** The values filed under k, in order of arrival. */
  function ValuesOf(stream: seq<Tuple>, k: string): seq<string>
  {
    if stream == [] then []
    else
      var last := stream[|stream| - 1];
      ValuesOf(stream[..|stream| - 1], k) + (if last.first == k then [last.second] else [])
  }

  /**
   * The grouping loop: each tuple's value is appended to the slice of its
   * key, and the slice is created on the key's first occurrence.
   */
  method Shuffle(stream: seq<Tuple>) returns (data: map<string, seq<string>>)
    ensures data.Keys == KeysOf(stream)
    ensures forall k :: k in data ==> data[k] == ValuesOf(stream, k)
  {
    data := map[];
    var i := 0;
    while i < |stream|
      invariant i <= |stream|
      invariant data.Keys == KeysOf(stream[..i])
      invariant forall k :: k in data ==> data[k] == ValuesOf(stream[..i], k)
    {
      assert stream[..i + 1][..i] == stream[..i];
      var k, v := stream[i].first, stream[i].second;
      var values: seq<string>;
      if k in data {
        values := data[k];
      } else {
        values := [];
        KeyAbsentNoValues(stream[..i], k);
      }
      values := values + [v];
      data := data[k := values];
      i := i + 1;
    }
    assert stream[..i] == stream;
  }

  /** A key that never occurred has no values. */
  lemma {:induction false} KeyAbsentNoValues(stream: seq<Tuple>, k: string)
    requires k !in KeysOf(stream)
    ensures ValuesOf(stream, k) == []
  {
    if stream != [] {
      var init := stream[..|stream| - 1];
      assert KeysOf(init) <= KeysOf(stream);
      KeyAbsentNoValues(init, k);
    }
  }

  /** Grouping distributes over concatenation of streams. */
  lemma {:induction false} ValuesOfAppend(a: seq<Tuple>, b: seq<Tuple>, k: string)
    ensures ValuesOf(a + b, k) == ValuesOf(a, k) + ValuesOf(b, k)
  {
    if b != [] {
      var init := b[..|b| - 1];
      assert (a + b)[..|a + b| - 1] == a + init;
      ValuesOfAppend(a, init, k);
    } else {
      assert a + b == a;
    }
  }

  /** A key has values exactly when it occurs in the stream: no key maps to an empty slice. */
  lemma KeysHaveValues(stream: seq<Tuple>, k: string)
    ensures k in KeysOf(stream) <==> ValuesOf(stream, k) != []
  {
    if k in KeysOf(stream) {
      var i :| 0 <= i < |stream| && stream[i].first == k;
      ValueAt(stream, k, i);
    } else {
      KeyAbsentNoValues(stream, k);
    }
  }

  /** Value x is filed under key k exactly when the tuple (k, x) arrived: nothing is dropped or misfiled. */
  lemma {:induction false} ValuesOfMembers(stream: seq<Tuple>, k: string, x: string)
    ensures x in ValuesOf(stream, k) <==> Tuple(k, x) in stream
  {
    if stream != [] {
      var init := stream[..|stream| - 1];
      ValuesOfMembers(init, k, x);
      assert stream == init + [stream[|stream| - 1]];
    }
  }

  /**
   * The tuple at position i lands in k's slice at the position given by
   * the number of k-values that arrived before it.
   */
  lemma ValueAt(stream: seq<Tuple>, k: string, i: nat)
    requires i < |stream| && stream[i].first == k
    ensures |ValuesOf(stream[..i], k)| < |ValuesOf(stream, k)|
    ensures ValuesOf(stream, k)[|ValuesOf(stream[..i], k)|] == stream[i].second
  {
    var before, rest := stream[..i], stream[i + 1..];
    assert stream == before + ([stream[i]] + rest);
    ValuesOfAppend(before, [stream[i]] + rest, k);
    ValuesOfAppend([stream[i]], rest, k);
    assert ValuesOf([stream[i]], k) == [stream[i].second] by {
      assert [stream[i]][..0] == [];
    }
  }

  /** Values of one key keep their order of arrival. */
  lemma ValuesKeepOrder(stream: seq<Tuple>, k: string, i: nat, j: nat)
    requires i < j < |stream| && stream[i].first == k && stream[j].first == k
    ensures var a, b := |ValuesOf(stream[..i], k)|, |ValuesOf(stream[..j], k)|;
      a < b < |ValuesOf(stream, k)| && ValuesOf(stream, k)[a] == stream[i].second
      && ValuesOf(stream, k)[b] == stream[j].second
  {
    ValueAt(stream, k, i);
    ValueAt(stream, k, j);
    ValueAt(stream[..j], k, i);
    assert stream[..j][..i] == stream[..i];
  }

  /** The number of values over the keys ks. */
  function SumLens(ks: seq<string>, stream: seq<Tuple>): nat
  {
    if ks == [] then 0 else SumLens(ks[..|ks| - 1], stream) + |ValuesOf(stream, ks[|ks| - 1])|
  }

  ghost predicate Distinct(ks: seq<string>)
  {
    forall p, q :: 0 <= p < q < |ks| ==> ks[p] != ks[q]
  }

  lemma {:induction false} SumLensEmpty(ks: seq<string>)
    ensures SumLens(ks, []) == 0
  {
    if ks != [] {
      SumLensEmpty(ks[..|ks| - 1]);
    }
  }

  /** One more tuple adds one value, under its own key, when that key is listed once. */
  lemma {:induction false} SumLensSnoc(ks: seq<string>, stream: seq<Tuple>, t: Tuple)
    requires Distinct(ks)
    ensures SumLens(ks, stream + [t]) == SumLens(ks, stream) + (if t.first in ks then 1 else 0)
  {
    if ks != [] {
      var init, last := ks[..|ks| - 1], ks[|ks| - 1];
      assert (stream + [t])[..|stream|] == stream;
      assert t.first in ks <==> t.first in init || t.first == last;
      assert !(t.first in init && t.first == last);
      SumLensSnoc(init, stream, t);
    }
  }

  /** Over the distinct keys of the stream the slices hold as many values as there were tuples. */
  lemma {:induction false} TotalValues(ks: seq<string>, stream: seq<Tuple>)
    requires Distinct(ks) && forall t :: t in stream ==> t.first in ks
    ensures SumLens(ks, stream) == |stream|
  {
    if stream == [] {
      SumLensEmpty(ks);
    } else {
      var init, last := stream[..|stream| - 1], stream[|stream| - 1];
      assert stream == init + [last];
      TotalValues(ks, init);
      SumLensSnoc(ks, init, last);
    }
  }

  // ---------------------------------------------------------------------
  // Mapper naming (lines 24-31)
  // ---------------------------------------------------------------------

  function Digit(d: nat): (c: char)
    requires d < 10
    ensures '0' <= c <= '9' && c as int - '0' as int == d
  {
    (d + '0' as int) as char
  }

  ghost predicate IsDecimal(s: string)
  {
    forall p :: 0 <= p < |s| ==> '0' <= s[p] <= '9'
  }

  /** `strconv.Itoa` on a non-negative int: decimal digits, no leading zero. */
  function Itoa(n: nat): (s: string)
    ensures |s| >= 1 && IsDecimal(s)
    ensures s[0] == '0' ==> n == 0
    decreases n
  {
    if n < 10 then [Digit(n)] else Itoa(n / 10) + [Digit(n % 10)]
  }

  /** The value of a decimal string, the reference inverse of Itoa. */
  function Atoi(s: string): nat
    requires IsDecimal(s)
  {
    if s == [] then 0 else Atoi(s[..|s| - 1]) * 10 + (s[|s| - 1] as int - '0' as int)
  }

  lemma {:induction false} AtoiItoa(n: nat)
    ensures Atoi(Itoa(n)) == n
  {
    if n >= 10 {
      var s := Itoa(n);
      assert s[..|s| - 1] == Itoa(n / 10);
      AtoiItoa(n / 10);
    } else {
      assert Itoa(n)[..0] == [];
    }
  }

  /** Distinct positions get distinct mapper names. */
  lemma ItoaInjective(a: nat, b: nat)
    ensures Itoa(a) == Itoa(b) <==> a == b
  {
    AtoiItoa(a);
    AtoiItoa(b);
  }

  /**
   * The loop over the input that creates one mapper per record: record i
   * is mapped under the name Itoa(i), and no two records share a mapper.
   */
  method SpawnMappers(input: seq<string>) returns (mappers: map<string, MapCall>)
    ensures |mappers| == |input|
    ensures forall i :: 0 <= i < |input| ==> Itoa(i) in mappers && mappers[Itoa(i)] == MapCall(Itoa(i), input[i])
    ensures mappers.Keys == Names(|input|)
  {
    hide Names, Itoa;
    NoNames();
    mappers := map[];
    var i := 0;
    while i < |input|
      invariant i <= |input| && Spawned(mappers, input, i)
    {
      mappers := SpawnMapper(mappers, input, i);
      i := i + 1;
    }
  }

  /** The first n records have their mappers, under distinct names. */
  ghost predicate Spawned(mappers: map<string, MapCall>, input: seq<string>, n: nat)
    requires n <= |input|
  {
    && |mappers| == n && mappers.Keys == Names(n)
    && forall j :: 0 <= j < n ==> Itoa(j) in mappers && mappers[Itoa(j)] == MapCall(Itoa(j), input[j])
  }

  /** One turn of the mapper loop: record i gets its mapper under name Itoa(i). */
  method SpawnMapper(mappers: map<string, MapCall>, input: seq<string>, i: nat) returns (mappers': map<string, MapCall>)
    requires i < |input| && Spawned(mappers, input, i)
    ensures Spawned(mappers', input, i + 1)
  {
    hide Names, Itoa;
    var name := Itoa(i);
    NameIsNew(i);
    mappers' := mappers[name := MapCall(name, input[i])];
    forall j | 0 <= j < i + 1
      ensures Itoa(j) in mappers' && mappers'[Itoa(j)] == MapCall(Itoa(j), input[j])
    {
      if j < i {
        assert Itoa(j) in mappers && Itoa(j) != name;
      }
    }
  }

  /** The names of the first n mappers. */
  ghost function Names(n: nat): set<string>
  {
    set j | 0 <= j < n :: Itoa(j)
  }

  lemma NoNames()
    ensures Names(0) == {}
  {
  }

  /** Mapper i's name is not taken by an earlier mapper, and the names then grow by it. */
  lemma NameIsNew(i: nat)
    ensures Itoa(i) !in Names(i) && Names(i + 1) == Names(i) + {Itoa(i)}
  {
    forall j | 0 <= j < i
      ensures Itoa(j) != Itoa(i)
    {
      ItoaInjective(i, j);
    }
  }

  // ---------------------------------------------------------------------
  // Reducer creation (lines 46-53)
  // ---------------------------------------------------------------------

  /**
   * The loop over `data` that creates one reducer per key, given that
   * key's values; Go visits a map's keys in no fixed order, so each turn
   * takes any key not yet handled.
   */
  method SpawnReducers(data: map<string, seq<string>>) returns (reducers: map<string, ReduceCall>)
    ensures reducers.Keys == data.Keys
    ensures forall k :: k in reducers ==> reducers[k] == ReduceCall(k, data[k])
  {
    reducers := map[];
    var keys := data.Keys;
    while keys != {}
      invariant keys <= data.Keys && reducers.Keys == data.Keys - keys
      invariant forall k :: k in reducers ==> reducers[k] == ReduceCall(k, data[k])
      decreases |keys|
    {
      var k :| k in keys;
      reducers := reducers[k := ReduceCall(k, data[k])];
      keys := keys - {k};
    }
  }

  /**
   * Grouping followed by reducer creation: exactly one reducer per key that
   * occurs in the merged stream, given that key's values in arrival order,
   * never an empty list.
   */
  method GroupAndReduce(stream: seq<Tuple>) returns (reducers: map<string, ReduceCall>)
    ensures reducers.Keys == KeysOf(stream)
    ensures forall k :: k in reducers ==> reducers[k] == ReduceCall(k, ValuesOf(stream, k)) && reducers[k].values != []
  {
    var data := Shuffle(stream);
    reducers := SpawnReducers(data);
    forall k | k in reducers
      ensures reducers[k].values != []
    {
      KeysHaveValues(stream, k);
    }
  }
}
