/**
 * The pure helpers of the shared `common` package: cleaning plain objects,
 * converting between objects and query strings, truncating text and the
 * email and UUID validators.
 *
 * A query string is the ordered list of its (name, value) pairs, as a
 * `URLSearchParams` holds it; percent-encoding is not modelled.
 */
module Helpers {
  import opened Wrappers
  import opened Js

  type Pairs = seq<(string, string)>

  // ----- emptyToUndefined -----

  /** The values `emptyToUndefined` drops: the empty string and null. */
  predicate Blank(v: JsValue) {
    v == Str("") || v == Null
  }

  /** What a lookup gives once "" and null properties are dropped. */
  function WithoutBlank(v: Option<JsValue>): Option<JsValue> {
    if v.Some? && Blank(v.value) then None else v
  }

  /** The properties of `e` whose value is neither "" nor null, in order. */
  function DropBlank(e: Entries): Entries {
    if e == [] then []
    else DropBlank(e[..|e| - 1]) + (if Blank(e[|e| - 1].1) then [] else [e[|e| - 1]])
  }

  /** What is kept is a property of `e` and is not blank. */
  lemma {:induction false} DropBlankKeeps(e: Entries)
    ensures forall x <- DropBlank(e) :: x in e && !Blank(x.1)
  {
    if e != [] {
      DropBlankKeeps(e[..|e| - 1]);
      assert forall x <- e[..|e| - 1] :: x in e;
    }
  }

  /** Deleting from a concatenation deletes from both parts. */
  lemma {:induction false} RemoveAppend(a: Entries, b: Entries, k: string)
    ensures Remove(a + b, k) == Remove(a, k) + Remove(b, k)
  {
    if a == [] {
      assert a + b == b;
    } else {
      assert (a + b)[1..] == a[1..] + b;
      RemoveAppend(a[1..], b, k);
    }
  }

  /** Deleting a property that is not there changes nothing. */
  lemma {:induction false} RemoveAbsent(e: Entries, k: string)
    requires forall x <- e :: x.0 != k
    ensures Remove(e, k) == e
  {
    if e != [] {
      assert e[0] in e;
      assert forall x <- e[1..] :: x in e;
      RemoveAbsent(e[1..], k);
    }
  }

  /** One iteration of `emptyToUndefined`: property `i` is deleted exactly when it is blank. */
  lemma EmptyToUndefinedStep(obj: Entries, i: nat)
    requires DistinctKeys(obj) && i < |obj|
    ensures Blank(obj[i].1) ==>
      Remove(DropBlank(obj[..i]) + obj[i..], obj[i].0) == DropBlank(obj[..i + 1]) + obj[i + 1..]
    ensures !Blank(obj[i].1) ==> DropBlank(obj[..i]) + obj[i..] == DropBlank(obj[..i + 1]) + obj[i + 1..]
  {
    DropBlankPrefix(obj, i);
    if Blank(obj[i].1) {
      RemoveBlank(obj, i);
    } else {
      var kept, rest := DropBlank(obj[..i]), obj[i + 1..];
      assert obj[i..] == [obj[i]] + rest;
      assert kept + ([obj[i]] + rest) == (kept + [obj[i]]) + rest;
    }
  }

  lemma DropBlankPrefix(obj: Entries, i: nat)
    requires i < |obj|
    ensures DropBlank(obj[..i + 1]) == DropBlank(obj[..i]) + (if Blank(obj[i].1) then [] else [obj[i]])
  {
    assert obj[..i + 1][..i] == obj[..i];
  }

  /** Deleting the blank property `i` from the state after `i` iterations. */
  lemma RemoveBlank(obj: Entries, i: nat)
    requires DistinctKeys(obj) && i < |obj|
    ensures Remove(DropBlank(obj[..i]) + obj[i..], obj[i].0) == DropBlank(obj[..i]) + obj[i + 1..]
  {
    KeyOnlyAt(obj, i);
    assert obj[i..] == [obj[i]] + obj[i + 1..];
    RemoveMiddle(DropBlank(obj[..i]), obj[i], obj[i + 1..]);
  }

  /** Deleting a key that only `x` has takes out `x` alone. */
  lemma RemoveMiddle(a: Entries, x: (string, JsValue), b: Entries)
    requires forall y <- a :: y.0 != x.0
    requires forall y <- b :: y.0 != x.0
    ensures Remove(a + ([x] + b), x.0) == a + b
  {
    calc {
      Remove(a + ([x] + b), x.0);
      { RemoveAppend(a, [x] + b, x.0); }
      Remove(a, x.0) + Remove([x] + b, x.0);
      { RemoveAbsent(a, x.0); RemoveAppend([x], b, x.0); }
      a + (Remove([x], x.0) + Remove(b, x.0));
      { assert Remove([x], x.0) == []; RemoveAbsent(b, x.0); }
      a + b;
    }
  }

  /** With distinct keys, the key of property `i` occurs neither before nor after it. */
  lemma KeyOnlyAt(obj: Entries, i: nat)
    requires DistinctKeys(obj) && i < |obj|
    ensures forall x <- DropBlank(obj[..i]) :: x.0 != obj[i].0
    ensures forall x <- obj[i + 1..] :: x.0 != obj[i].0
  {
    DropBlankKeeps(obj[..i]);
    forall x <- obj[..i] ensures x.0 != obj[i].0 {
      var m :| 0 <= m < i && obj[..i][m] == x;
    }
    forall x <- obj[i + 1..] ensures x.0 != obj[i].0 {
      var m :| 0 <= m < |obj| - i - 1 && obj[i + 1..][m] == x;
      assert obj[i + 1 + m] == x;
    }
  }

  /** Appending a property with a new key keeps the keys distinct. */
  lemma DistinctSnoc(e: Entries, x: (string, JsValue))
    requires DistinctKeys(e) && forall y <- e :: y.0 != x.0
    ensures DistinctKeys(e + [x])
  {
    forall i, j | 0 <= i < j < |e + [x]| ensures (e + [x])[i].0 != (e + [x])[j].0 {
      if j == |e| {
        assert e[i] in e;
      }
    }
  }

  /**
   * With distinct keys, dropping the blank properties leaves distinct keys,
   * and a lookup finds what it found before unless that was blank.
   */
  lemma {:induction false} DropBlankLookup(obj: Entries)
    requires DistinctKeys(obj)
    ensures DistinctKeys(DropBlank(obj))
    ensures forall k :: Lookup(DropBlank(obj), k) == WithoutBlank(Lookup(obj, k))
  {
    if obj != [] {
      var init, last := obj[..|obj| - 1], obj[|obj| - 1];
      DistinctInit(obj);
      DropBlankLookup(init);
      var kept := DropBlank(init);
      DropBlankKeeps(init);
      assert obj == init + [last];
      forall y <- kept ensures y.0 != last.0 {
        var m :| 0 <= m < |init| && init[m] == y;
      }
      if !Blank(last.1) {
        DistinctSnoc(kept, last);
      } else {
        assert kept + [] == kept;
      }
      forall k ensures Lookup(DropBlank(obj), k) == WithoutBlank(Lookup(obj, k)) {
        LookupSnoc(init, last, k);
        LookupSnoc(kept, last, k);
      }
    }
  }

  /**
   * A copy of `obj` without the properties whose value is "" or null; every
   * other property keeps its value and its place, and `obj` itself is a
   * value, so it is not modified.
   */
  method EmptyToUndefined(obj: Entries) returns (result: Entries)
    requires DistinctKeys(obj)
    ensures result == DropBlank(obj)
    ensures DistinctKeys(result)
    ensures forall k :: Lookup(result, k) == WithoutBlank(Lookup(obj, k))
  {
    result := obj;
    for i := 0 to |obj|
      invariant result == DropBlank(obj[..i]) + obj[i..]
    {
      var key, value := obj[i].0, obj[i].1;
      EmptyToUndefinedStep(obj, i);
      if value == Str("") || value == Null {
        result := Remove(result, key);
      }
    }
    assert obj[..|obj|] == obj && obj[|obj|..] == [];
    assert result == DropBlank(obj);
    DropBlankLookup(obj);
  }

  // ----- stringValuesToBoolean -----

  /** "true" becomes true, "false" becomes false, anything else is kept. */
  function ToBooleanValue(v: JsValue): JsValue {
    if v == Str("true") then Bool(true)
    else if v == Str("false") then Bool(false)
    else v
  }

  function ConvertedLookup(v: Option<JsValue>): Option<JsValue> {
    if v.Some? then Some(ToBooleanValue(v.value)) else None
  }

  /** `obj` with the values of its first `n` properties converted. */
  function ConvertedPrefix(obj: Entries, n: nat): (r: Entries)
    requires n <= |obj|
    ensures |r| == |obj|
  {
    seq(|obj|, j requires 0 <= j < |obj| => if j < n then (obj[j].0, ToBooleanValue(obj[j].1)) else obj[j])
  }

  /** A property list whose values are converted one for one answers every lookup converted. */
  lemma {:induction false} LookupConverted(obj: Entries, r: Entries)
    requires |r| == |obj|
    requires forall j :: 0 <= j < |obj| ==> r[j] == (obj[j].0, ToBooleanValue(obj[j].1))
    ensures forall k :: Lookup(r, k) == ConvertedLookup(Lookup(obj, k))
  {
    if obj != [] {
      LookupConverted(obj[1..], r[1..]);
    }
  }

  /**
   * A copy of `obj` with the same keys in the same order, the values "true"
   * and "false" turned into booleans and every other value kept.
   */
  method StringValuesToBoolean(obj: Entries) returns (result: Entries)
    requires DistinctKeys(obj)
    ensures |result| == |obj|
    ensures forall j :: 0 <= j < |obj| ==> result[j] == (obj[j].0, ToBooleanValue(obj[j].1))
    ensures DistinctKeys(result)
    ensures forall k :: Lookup(result, k) == ConvertedLookup(Lookup(obj, k))
  {
    result := obj;
    for i := 0 to |obj|
      invariant result == ConvertedPrefix(obj, i)
    {
      var (key, value) := obj[i];
      if value == Str("true") || value == Str("false") {
        PutAt(result, i, Bool(value == Str("true")));
        result := Put(result, key, Bool(value == Str("true")));
      }
    }
    LookupConverted(obj, result);
  }

  // ----- Query strings -----

  /** `URLSearchParams.getAll(k)`: the values of the pairs named `k`, in order. */
  function AllValues(qs: Pairs, k: string): seq<string> {
    if qs == [] then []
    else AllValues(qs[..|qs| - 1], k) + (if qs[|qs| - 1].0 == k then [qs[|qs| - 1].1] else [])
  }

  lemma {:induction false} AllValuesAppend(a: Pairs, b: Pairs, k: string)
    ensures AllValues(a + b, k) == AllValues(a, k) + AllValues(b, k)
  {
    if b != [] {
      assert (a + b)[..|a + b| - 1] == a + b[..|b| - 1];
      AllValuesAppend(a, b[..|b| - 1], k);
    } else {
      assert a + b == a;
    }
  }

  /** The value of the last pair named `k`, which `Object.fromEntries` keeps. */
  function LastValue(qs: Pairs, k: string): Option<string> {
    var all := AllValues(qs, k);
    if all == [] then None else Some(all[|all| - 1])
  }

  /** A string value as a property: `Str(s)`, or nothing. */
  function AsProperty(s: Option<string>): Option<JsValue> {
    match s
    case None => None
    case Some(v) => Some(Str(v))
  }

  function StrArray(values: seq<string>): (r: JsValue)
    ensures r.Arr? && |r.items| == |values|
    ensures forall i :: 0 <= i < |values| ==> r.items[i] == Str(values[i])
  {
    Arr(seq(|values|, i requires 0 <= i < |values| => Str(values[i])))
  }

  /** `Object.fromEntries(qs)`: one property per name, at the place of its first pair. */
  function FromEntries(qs: Pairs): (r: Entries)
    ensures DistinctKeys(r)
  {
    if qs == [] then []
    else
      var prev := FromEntries(qs[..|qs| - 1]);
      PutDistinct(prev, qs[|qs| - 1].0, Str(qs[|qs| - 1].1));
      Put(prev, qs[|qs| - 1].0, Str(qs[|qs| - 1].1))
  }

  /** Each property of `Object.fromEntries(qs)` holds the value of the last pair with its name. */
  lemma {:induction false} FromEntriesLookup(qs: Pairs, k: string)
    ensures Lookup(FromEntries(qs), k) == AsProperty(LastValue(qs, k))
  {
    if qs != [] {
      var init, last := qs[..|qs| - 1], qs[|qs| - 1];
      FromEntriesLookup(init, k);
      var prev := FromEntries(init);
      assert FromEntries(qs) == Put(prev, last.0, Str(last.1));
      PutLookup(prev, last.0, Str(last.1));
      if last.0 == k {
        assert AllValues(qs, k) == AllValues(init, k) + [last.1];
        assert Lookup(FromEntries(qs), k) == Some(Str(last.1));
      } else {
        assert AllValues(qs, k) == AllValues(init, k);
        assert Lookup(FromEntries(qs), k) == Lookup(prev, k);
      }
    }
  }

  /**
   * What `fromQuerystring` leaves under `k`: nothing for an excluded key, the
   * list of all its values for an array key, otherwise its last value.
   */
  function QueryValue(qs: Pairs, arrayKeys: seq<string>, excludeKeys: seq<string>, k: string): Option<JsValue> {
    if k in excludeKeys then None
    else if k in arrayKeys then Some(StrArray(AllValues(qs, k)))
    else AsProperty(LastValue(qs, k))
  }

  /**
   * What the object under construction holds under `k` once the keys in
   * `arrayKeys` have been overwritten with all their values and those in
   * `excludeKeys` deleted, starting from `base`.
   */
  function Staged(qs: Pairs, arrayKeys: seq<string>, excludeKeys: seq<string>, base: Entries, k: string): Option<JsValue> {
    if k in excludeKeys then None
    else if k in arrayKeys then Some(StrArray(AllValues(qs, k)))
    else Lookup(base, k)
  }

  /** Overwriting one more array key extends the staged array keys by that key. */
  lemma StagedPut(result: Entries, qs: Pairs, keys: seq<string>, i: nat, base: Entries)
    requires i < |keys|
    requires forall k :: Lookup(result, k) == Staged(qs, keys[..i], [], base, k)
    ensures forall k ::
      Lookup(Put(result, keys[i], StrArray(AllValues(qs, keys[i]))), k) == Staged(qs, keys[..i + 1], [], base, k)
  {
    assert keys[..i + 1] == keys[..i] + [keys[i]];
    PutLookup(result, keys[i], StrArray(AllValues(qs, keys[i])));
  }

  /** Deleting one more excluded key extends the staged excluded keys by that key. */
  lemma StagedRemove(result: Entries, qs: Pairs, arrayKeys: seq<string>, keys: seq<string>, i: nat, base: Entries)
    requires i < |keys|
    requires forall k :: Lookup(result, k) == Staged(qs, arrayKeys, keys[..i], base, k)
    ensures forall k :: Lookup(Remove(result, keys[i]), k) == Staged(qs, arrayKeys, keys[..i + 1], base, k)
  {
    assert keys[..i + 1] == keys[..i] + [keys[i]];
    RemoveLookup(result, keys[i]);
  }

  /** The two loops of `fromQuerystring`, applied to `base`. */
  method ApplyKeyLists(qs: Pairs, arrayKeys: seq<string>, excludeKeys: seq<string>, base: Entries)
    returns (result: Entries)
    requires DistinctKeys(base)
    ensures DistinctKeys(result)
    ensures forall k :: Lookup(result, k) == Staged(qs, arrayKeys, excludeKeys, base, k)
  {
    result := base;
    for i := 0 to |arrayKeys|
      invariant DistinctKeys(result)
      invariant forall k :: Lookup(result, k) == Staged(qs, arrayKeys[..i], [], base, k)
    {
      StagedPut(result, qs, arrayKeys, i, base);
      PutDistinct(result, arrayKeys[i], StrArray(AllValues(qs, arrayKeys[i])));
      result := Put(result, arrayKeys[i], StrArray(AllValues(qs, arrayKeys[i])));
    }
    assert arrayKeys[..|arrayKeys|] == arrayKeys;
    for i := 0 to |excludeKeys|
      invariant DistinctKeys(result)
      invariant forall k :: Lookup(result, k) == Staged(qs, arrayKeys, excludeKeys[..i], base, k)
    {
      StagedRemove(result, qs, arrayKeys, excludeKeys, i, base);
      RemoveDistinct(result, excludeKeys[i]);
      result := Remove(result, excludeKeys[i]);
    }
    assert excludeKeys[..|excludeKeys|] == excludeKeys;
  }

  /**
   * `fromQuerystring`, as written: the copy that `stringValuesToBoolean`
   * returns is discarded, so `convertBooleanValues` has no effect. An absent
   * `arrayKeys` or `excludeKeys` is the empty list.
   */
  method FromQuerystring(qs: Pairs, arrayKeys: seq<string>, excludeKeys: seq<string>, convertBooleanValues: bool)
    returns (result: Entries)
    ensures DistinctKeys(result)
    ensures forall k :: Lookup(result, k) == QueryValue(qs, arrayKeys, excludeKeys, k)
  {
    var parsed := FromEntries(qs);
    if convertBooleanValues {
      var discarded := StringValuesToBoolean(parsed);
    }
    result := ApplyKeyLists(qs, arrayKeys, excludeKeys, parsed);
    forall k ensures Lookup(result, k) == QueryValue(qs, arrayKeys, excludeKeys, k) {
      FromEntriesLookup(qs, k);
    }
  }

  /** What `fromQuerystring` evidently means to leave under `k` when `convertBooleanValues` is set. */
  function ConvertedQueryValue(qs: Pairs, arrayKeys: seq<string>, excludeKeys: seq<string>, k: string): Option<JsValue> {
    if k in excludeKeys then None
    else if k in arrayKeys then Some(StrArray(AllValues(qs, k)))
    else ConvertedLookup(AsProperty(LastValue(qs, k)))
  }

  /** `fromQuerystring` with the conversion kept (`result = stringValuesToBoolean(result)`). */
  method FromQuerystringConverting(qs: Pairs, arrayKeys: seq<string>, excludeKeys: seq<string>, convertBooleanValues: bool)
    returns (result: Entries)
    ensures DistinctKeys(result)
    ensures convertBooleanValues ==> forall k :: Lookup(result, k) == ConvertedQueryValue(qs, arrayKeys, excludeKeys, k)
    ensures !convertBooleanValues ==> forall k :: Lookup(result, k) == QueryValue(qs, arrayKeys, excludeKeys, k)
  {
    var parsed := FromEntries(qs);
    var converted := parsed;
    if convertBooleanValues {
      converted := StringValuesToBoolean(parsed);
    }
    result := ApplyKeyLists(qs, arrayKeys, excludeKeys, converted);
    forall k ensures Lookup(result, k) == (if convertBooleanValues then ConvertedQueryValue(qs, arrayKeys, excludeKeys, k) else QueryValue(qs, arrayKeys, excludeKeys, k)) {
      FromEntriesLookup(qs, k);
    }
  }

  /** On `?active=true`, the flag as written leaves the string, the conversion gives `true`. */
  lemma ConvertFlagIgnored()
    ensures QueryValue([("active", "true")], [], [], "active") == Some(Str("true"))
    ensures ConvertedQueryValue([("active", "true")], [], [], "active") == Some(Bool(true))
  {
    var qs := [("active", "true")];
    assert qs[..0] == [];
    assert AllValues(qs, "active") == ["true"];
  }

  /** The values `toQuerystring` emits for one property. */
  function EmittedValues(v: JsValue): seq<string> {
    if !Truthy(v) && v != Bool(false) then []
    else if v.Arr? then seq(|v.items|, i requires 0 <= i < |v.items| => ToJsString(v.items[i]))
    else [ToJsString(v)]
  }

  function EntryPairs(k: string, v: JsValue): (r: Pairs)
    ensures forall p <- r :: p.0 == k
  {
    var vs := EmittedValues(v);
    seq(|vs|, i requires 0 <= i < |vs| => (k, vs[i]))
  }

  /** The pairs of `toQuerystring(obj)`, property by property. */
  function QueryPairs(obj: Entries): Pairs {
    if obj == [] then []
    else QueryPairs(obj[..|obj| - 1]) + EntryPairs(obj[|obj| - 1].0, obj[|obj| - 1].1)
  }

  /**
   * `URLSearchParams.set`: the first pair named `k` takes `v` and the other
   * pairs named `k` go; with no such pair, `(k, v)` is appended.
   */
  function SetParam(ps: Pairs, k: string, v: string): Pairs {
    if forall p <- ps :: p.0 != k then ps + [(k, v)] else ReplaceFirst(ps, k, v)
  }

  function ReplaceFirst(ps: Pairs, k: string, v: string): Pairs {
    if ps == [] then []
    else if ps[0].0 == k then [(k, v)] + DropName(ps[1..], k)
    else [ps[0]] + ReplaceFirst(ps[1..], k, v)
  }

  function DropName(ps: Pairs, k: string): Pairs {
    if ps == [] then [] else (if ps[0].0 == k then [] else [ps[0]]) + DropName(ps[1..], k)
  }

  /** The pairs built from some properties only carry those properties' names. */
  lemma {:induction false} QueryPairsNames(obj: Entries, k: string)
    requires forall x <- obj :: x.0 != k
    ensures forall p <- QueryPairs(obj) :: p.0 != k
  {
    if obj != [] {
      assert obj[|obj| - 1] in obj;
      assert forall x <- obj[..|obj| - 1] :: x in obj;
      QueryPairsNames(obj[..|obj| - 1], k);
    }
  }

  /** The pairs of one more property follow the pairs of the properties before it. */
  lemma QueryPairsPrefix(obj: Entries, i: nat)
    requires i < |obj|
    ensures QueryPairs(obj[..i + 1]) == QueryPairs(obj[..i]) + EntryPairs(obj[i].0, obj[i].1)
  {
    assert obj[..i + 1][..i] == obj[..i];
  }

  /** One more array element emits one more pair. */
  lemma EntryPairsArrayPrefix(key: string, items: seq<JsValue>, j: nat)
    requires j < |items|
    ensures EntryPairs(key, Arr(items[..j + 1])) == EntryPairs(key, Arr(items[..j])) + [(key, ToJsString(items[j]))]
  {
  }

  /** A skipped value emits no pair, a scalar one pair. */
  lemma EntryPairsScalar(key: string, v: JsValue)
    requires !v.Arr?
    ensures EntryPairs(key, v) == if !Truthy(v) && v != Bool(false) then [] else [(key, ToJsString(v))]
  {
  }

  /** Setting a name no pair has yet appends the pair. */
  lemma SetParamFresh(obj: Entries, i: nat, v: string)
    requires DistinctKeys(obj) && i < |obj|
    ensures SetParam(QueryPairs(obj[..i]), obj[i].0, v) == QueryPairs(obj[..i]) + [(obj[i].0, v)]
  {
    DropBlankKeeps(obj[..i]);
    forall x <- obj[..i] ensures x.0 != obj[i].0 {
      var m :| 0 <= m < i && obj[..i][m] == x;
      assert obj[m] == x;
    }
    QueryPairsNames(obj[..i], obj[i].0);
  }

  /** The inner loop of `toQuerystring`: `append(key, String(v))` for each element `v`, in order. */
  method AppendElements(pairs: Pairs, key: string, items: seq<JsValue>) returns (result: Pairs)
    ensures result == pairs + EntryPairs(key, Arr(items))
  {
    result := pairs;
    for j := 0 to |items|
      invariant result == pairs + EntryPairs(key, Arr(items[..j]))
    {
      EntryPairsArrayPrefix(key, items, j);
      result := result + [(key, ToJsString(items[j]))];
    }
    assert items[..|items|] == items;
  }

  /**
   * `toQuerystring`: skips falsy values other than `false`, appends one pair
   * per array element and sets one pair per other value.
   */
  method ToQuerystring(obj: Entries) returns (pairs: Pairs)
    requires DistinctKeys(obj)
    ensures pairs == QueryPairs(obj)
  {
    pairs := [];
    for i := 0 to |obj|
      invariant pairs == QueryPairs(obj[..i])
    {
      var key, value := obj[i].0, obj[i].1;
      ghost var before := pairs;
      if !Truthy(value) && value != Bool(false) {
        // skipped: `continue`
      } else if value.Arr? {
        pairs := AppendElements(pairs, key, value.items);
      } else {
        SetParamFresh(obj, i, ToJsString(value));
        pairs := SetParam(pairs, key, ToJsString(value));
      }
      assert pairs == before + EntryPairs(key, value) by {
        if !value.Arr? {
          EntryPairsScalar(key, value);
        }
      }
      QueryPairsPrefix(obj, i);
    }
    assert obj[..|obj|] == obj;
  }

  /**
   * The pairs named `k` in `toQuerystring(obj)` are exactly the values
   * emitted for property `k`: one per array element in order, one for any
   * other truthy value or `false`, none for a falsy value or a missing key.
   */
  lemma {:induction false} QueryPairsOfKey(obj: Entries, k: string)
    requires DistinctKeys(obj)
    ensures AllValues(QueryPairs(obj), k) ==
      match Lookup(obj, k) case None => [] case Some(v) => EmittedValues(v)
  {
    if obj != [] {
      var init, last := obj[..|obj| - 1], obj[|obj| - 1];
      DistinctInit(obj);
      QueryPairsOfKey(init, k);
      AllValuesAppend(QueryPairs(init), EntryPairs(last.0, last.1), k);
      assert obj == init + [last];
      LookupSnoc(init, last, k);
      EntryPairsValues(last.0, last.1, k);
    }
  }

  lemma EntryPairsValues(key: string, v: JsValue, k: string)
    ensures AllValues(EntryPairs(key, v), k) == if key == k then EmittedValues(v) else []
  {
    var ps := EntryPairs(key, v);
    var vs := EmittedValues(v);
    if key == k {
      AllValuesAll(ps, k, vs);
    } else {
      AllValuesNone(ps, k);
    }
  }

  lemma {:induction false} AllValuesAll(ps: Pairs, k: string, vs: seq<string>)
    requires |ps| == |vs| && forall i :: 0 <= i < |ps| ==> ps[i] == (k, vs[i])
    ensures AllValues(ps, k) == vs
  {
    if ps != [] {
      AllValuesAll(ps[..|ps| - 1], k, vs[..|vs| - 1]);
    }
  }

  lemma {:induction false} AllValuesNone(ps: Pairs, k: string)
    requires forall p <- ps :: p.0 != k
    ensures AllValues(ps, k) == []
  {
    if ps != [] {
      assert ps[|ps| - 1] in ps;
      assert forall p <- ps[..|ps| - 1] :: p in ps;
      AllValuesNone(ps[..|ps| - 1], k);
    }
  }

  /**
   * Parsing what `toQuerystring` built gives back a scalar property as its
   * string form (a non-empty string as itself, `false` as "false").
   */
  lemma QuerystringRoundTripScalar(obj: Entries, arrayKeys: seq<string>, k: string, v: JsValue)
    requires DistinctKeys(obj) && k !in arrayKeys
    requires Lookup(obj, k) == Some(v) && !v.Arr? && (Truthy(v) || v == Bool(false))
    ensures QueryValue(QueryPairs(obj), arrayKeys, [], k) == Some(Str(ToJsString(v)))
  {
    QueryPairsOfKey(obj, k);
  }

  /** Parsing what `toQuerystring` built gives back a string-array property when its key is an array key. */
  lemma QuerystringRoundTripArray(obj: Entries, arrayKeys: seq<string>, k: string, values: seq<string>)
    requires DistinctKeys(obj) && k in arrayKeys
    requires Lookup(obj, k) == Some(StrArray(values))
    ensures QueryValue(QueryPairs(obj), arrayKeys, [], k) == Some(StrArray(values))
  {
    QueryPairsOfKey(obj, k);
    assert EmittedValues(StrArray(values)) == values;
  }

  // ----- truncate -----

  /**
   * `truncate`: a text longer than `length` keeps its first `length`
   * characters (none when `length` is negative, as `substring` clamps) and
   * gets `suffix`; a shorter text is returned as it is.
   */
  function Truncate(text: string, length: int, suffix: string := "..."): (r: string)
    ensures |text| <= length ==> r == text
    ensures |text| > length ==> |r| == (if length < 0 then 0 else length) + |suffix|
    ensures |text| > length ==> r[..|r| - |suffix|] == text[..|r| - |suffix|] && r[|r| - |suffix|..] == suffix
    ensures 0 <= length ==> |r| <= length + |suffix|
  {
    if |text| > length then text[..if length < 0 then 0 else length] + suffix else text
  }

  // ----- isValidEmail -----

  /** A character `[^\s@]` matches. */
  predicate EmailChar(c: char) {
    !IsWhitespace(c) && c != '@'
  }

  /** A run that `[^\s@]+` matches. */
  predicate EmailRun(s: string) {
    |s| > 0 && forall i :: 0 <= i < |s| ==> EmailChar(s[i])
  }

  /**
   * `isValidEmail`: the whole value matches `^[^\s@]+@[^\s@]+\.[^\s@]+$`,
   * with `i` the '@' and `j` the '.' the regex settles on.
   */
  predicate IsValidEmail(value: string) {
    exists i, j :: 0 < i && i + 1 < j < |value| - 1 && value[i] == '@' && value[j] == '.'
      && EmailRun(value[..i]) && EmailRun(value[i + 1..j]) && EmailRun(value[j + 1..])
  }

  /** The '@' sits at `i` and nowhere else. */
  predicate OnlyAtSignAt(value: string, i: int) {
    0 <= i < |value| && value[i] == '@' && forall k :: 0 <= k < |value| && k != i ==> value[k] != '@'
  }

  /** A '.' strictly inside the part after the '@' at `i`. */
  predicate DotInsideDomain(value: string, i: int) {
    exists j :: 0 <= i && i + 1 < j < |value| - 1 && value[j] == '.'
  }

  /**
   * The regex in plain words: exactly one '@', no white space, something
   * before the '@', and a '.' after it that is neither the first nor the
   * last character of the part after it.
   */
  lemma IsValidEmailRules(value: string)
    ensures IsValidEmail(value) <==>
      NoWhitespace(value) && exists i :: 0 < i && OnlyAtSignAt(value, i) && DotInsideDomain(value, i)
  {
    if IsValidEmail(value) {
      var i, j :| 0 < i && i + 1 < j < |value| - 1 && value[i] == '@' && value[j] == '.'
        && EmailRun(value[..i]) && EmailRun(value[i + 1..j]) && EmailRun(value[j + 1..]);
      EmailRunsCover(value, i, j);
      assert OnlyAtSignAt(value, i) && DotInsideDomain(value, i);
    }
    if NoWhitespace(value) && exists i :: 0 < i && OnlyAtSignAt(value, i) && DotInsideDomain(value, i) {
      var i :| 0 < i && OnlyAtSignAt(value, i) && DotInsideDomain(value, i);
      var j :| i + 1 < j < |value| - 1 && value[j] == '.';
      assert EmailRun(value[..i]);
      assert EmailRun(value[i + 1..j]);
      assert EmailRun(value[j + 1..]);
    }
  }

  /** The three runs around the '@' at `i` and the '.' at `j` leave no room for white space or another '@'. */
  lemma EmailRunsCover(value: string, i: int, j: int)
    requires 0 < i && i + 1 < j < |value| - 1 && value[i] == '@' && value[j] == '.'
    requires EmailRun(value[..i]) && EmailRun(value[i + 1..j]) && EmailRun(value[j + 1..])
    ensures forall k :: 0 <= k < |value| ==> !IsWhitespace(value[k]) && (k != i ==> value[k] != '@')
  {
    forall k | 0 <= k < |value| ensures !IsWhitespace(value[k]) && (k != i ==> value[k] != '@') {
      if k < i { assert value[k] == value[..i][k]; }
      else if i < k < j { assert value[k] == value[i + 1..j][k - i - 1]; }
      else if j < k { assert value[k] == value[j + 1..][k - j - 1]; }
    }
  }

  // ----- isUUID -----

  predicate IsHexDigit(c: char) {
    ('0' <= c <= '9') || ('a' <= c <= 'f') || ('A' <= c <= 'F')
  }

  predicate AllHex(s: string) {
    forall i :: 0 <= i < |s| ==> IsHexDigit(s[i])
  }

  /**
   * `isUUID`: the value matches
   * `^[0-9a-fA-F]{8}-[0-9a-fA-F]{4}-[0-9a-fA-F]{4}-[0-9a-fA-F]{4}-[0-9a-fA-F]{12}$`.
   * The version and variant digits of RFC 4122 section 4.1 are not checked.
   */
  predicate IsUUID(value: string) {
    |value| == 36
    && AllHex(value[..8]) && value[8] == '-'
    && AllHex(value[9..13]) && value[13] == '-'
    && AllHex(value[14..18]) && value[18] == '-'
    && AllHex(value[19..23]) && value[23] == '-'
    && AllHex(value[24..])
  }

  predicate IsDashPosition(i: int) {
    i == 8 || i == 13 || i == 18 || i == 23
  }

  /** 36 characters, '-' at indices 8, 13, 18 and 23 and hex digits everywhere else. */
  lemma IsUUIDPositions(value: string)
    ensures IsUUID(value) <==>
      |value| == 36 && forall i :: 0 <= i < 36 ==>
        (if IsDashPosition(i) then value[i] == '-' else IsHexDigit(value[i]))
  {
    if IsUUID(value) {
      forall i | 0 <= i < 36 ensures if IsDashPosition(i) then value[i] == '-' else IsHexDigit(value[i]) {
        if i < 8 { assert value[i] == value[..8][i]; }
        else if 8 < i < 13 { assert value[i] == value[9..13][i - 9]; }
        else if 13 < i < 18 { assert value[i] == value[14..18][i - 14]; }
        else if 18 < i < 23 { assert value[i] == value[19..23][i - 19]; }
        else if 23 < i { assert value[i] == value[24..][i - 24]; }
      }
    }
  }

  /** Five hex groups of 8, 4, 4, 4 and 12 digits joined by '-' always form a UUID, and only those. */
  lemma UUIDGroups(a: string, b: string, c: string, d: string, e: string)
    requires |a| == 8 && |b| == 4 && |c| == 4 && |d| == 4 && |e| == 12
    ensures IsUUID(a + "-" + b + "-" + c + "-" + d + "-" + e) <==>
      AllHex(a) && AllHex(b) && AllHex(c) && AllHex(d) && AllHex(e)
  {
    var s := a + "-" + b + "-" + c + "-" + d + "-" + e;
    assert s[..8] == a && s[9..13] == b && s[14..18] == c && s[19..23] == d && s[24..] == e;
  }
}
