/**
 * The slice of JavaScript value semantics the modelled TypeScript relies on:
 * dynamically typed values, truthiness, `String(v)`, the white space that
 * `\s` and `String.prototype.trim` recognise, and plain objects as ordered
 * property lists (property order = insertion order, as `Object.entries`
 * reports it for non-integer keys).
 */
module Js {
  import opened Wrappers

  /** A JavaScript value. Numbers are integers here; objects are property lists. */
  datatype JsValue =
    | Undefined
    | Null
    | Bool(b: bool)
    | Num(n: int)
    | Str(s: string)
    | Arr(items: seq<JsValue>)
    | Obj(props: seq<(string, JsValue)>)

  /** ToBoolean: what `if (value)` and `!value` test. */
  predicate Truthy(v: JsValue) {
    match v
    case Undefined => false
    case Null => false
    case Bool(b) => b
    case Num(n) => n != 0
    case Str(s) => s != ""
    case Arr(_) => true
    case Obj(_) => true
  }

  /** `v === null || v === undefined`, the test behind `??` and `?.`. */
  predicate Nullish(v: JsValue) {
    v.Undefined? || v.Null?
  }

  predicate IsDigit(c: char) {
    '0' <= c <= '9'
  }

  /** Decimal digits of a natural number, most significant first. */
  function NatToString(n: nat): (s: string)
    ensures |s| > 0
    ensures forall i :: 0 <= i < |s| ==> IsDigit(s[i])
    ensures n < 10 <==> |s| == 1
  {
    if n < 10 then ["0123456789"[n]] else NatToString(n / 10) + ["0123456789"[n % 10]]
  }

  /** `String(n)` for an integer number. */
  function IntToString(n: int): (s: string)
    ensures |s| > 0
    ensures n < 0 <==> s[0] == '-'
  {
    if n < 0 then "-" + NatToString(-n) else NatToString(n)
  }

  /** `String(v)`. Arrays join their elements with "," and print null and undefined as "". */
  function ToJsString(v: JsValue): string
    decreases v, 1
  {
    match v
    case Undefined => "undefined"
    case Null => "null"
    case Bool(b) => if b then "true" else "false"
    case Num(n) => IntToString(n)
    case Str(s) => s
    case Arr(items) => JoinElements(items, v)
    case Obj(_) => "[object Object]"
  }

  /** `Array.prototype.join(",")` over the elements of `whole`. */
  function JoinElements(items: seq<JsValue>, ghost whole: JsValue): string
    requires forall x <- items :: x < whole
    decreases whole, 0, |items|
  {
    if items == [] then ""
    else
      assert items[0] in items;
      assert forall x <- items[1..] :: x in items;
      var head := if Nullish(items[0]) then "" else ToJsString(items[0]);
      if |items| == 1 then head else head + "," + JoinElements(items[1..], whole)
  }

  /** The characters `\s` matches and `trim()` removes: WhiteSpace and LineTerminator of ECMA-262. */
  predicate IsWhitespace(c: char) {
    var n := c as int;
    n == 0x09 || n == 0x0A || n == 0x0B || n == 0x0C || n == 0x0D || n == 0x20
    || n == 0xA0 || n == 0x1680 || (0x2000 <= n <= 0x200A) || n == 0x2028 || n == 0x2029
    || n == 0x202F || n == 0x205F || n == 0x3000 || n == 0xFEFF
  }

  predicate NoWhitespace(s: string) {
    forall i :: 0 <= i < |s| ==> !IsWhitespace(s[i])
  }

  /** Leading white space removed. */
  function TrimStart(s: string): (r: string)
    ensures |r| <= |s| && r == s[|s| - |r|..]
    ensures r == [] || !IsWhitespace(r[0])
    ensures forall i :: 0 <= i < |s| - |r| ==> IsWhitespace(s[i])
  {
    if s != [] && IsWhitespace(s[0]) then TrimStart(s[1..]) else s
  }

  /** Trailing white space removed. */
  function TrimEnd(s: string): (r: string)
    ensures |r| <= |s| && r == s[..|r|]
    ensures r == [] || !IsWhitespace(r[|r| - 1])
    ensures forall i :: |r| <= i < |s| ==> IsWhitespace(s[i])
  {
    if s != [] && IsWhitespace(s[|s| - 1]) then TrimEnd(s[..|s| - 1]) else s
  }

  /** `String.prototype.trim`. */
  function Trim(s: string): (r: string)
    ensures |r| <= |s|
    ensures r == [] || (!IsWhitespace(r[0]) && !IsWhitespace(r[|r| - 1]))
  {
    TrimEnd(TrimStart(s))
  }

  /** `s.replaceAll(/\s+/g, " ")`: every maximal run of white space becomes one space. */
  function CollapseWhitespace(s: string): string
    decreases |s|
  {
    if s == [] then []
    else if IsWhitespace(s[0]) then " " + CollapseWhitespace(TrimStart(s[1..]))
    else [s[0]] + CollapseWhitespace(s[1..])
  }

  /** Trimming a string that neither starts nor ends with white space gives it back. */
  lemma TrimUnchanged(s: string)
    requires s == [] || (!IsWhitespace(s[0]) && !IsWhitespace(s[|s| - 1]))
    ensures Trim(s) == s
  {
    assert TrimStart(s) == s;
    assert TrimEnd(s) == s;
  }

  // ----- Plain objects: property lists with distinct keys -----

  /** The entries of a plain object, in property order. */
  type Entries = seq<(string, JsValue)>

  function Keys(e: Entries): (ks: seq<string>)
    ensures |ks| == |e|
    ensures forall i :: 0 <= i < |e| ==> ks[i] == e[i].0
  {
    seq(|e|, i requires 0 <= i < |e| => e[i].0)
  }

  /** An object never has the same property twice. */
  predicate DistinctKeys(e: Entries) {
    forall i, j :: 0 <= i < j < |e| ==> e[i].0 != e[j].0
  }

  /** `obj[k]`, `None` standing for a missing property. */
  function Lookup(e: Entries, k: string): Option<JsValue> {
    if e == [] then None
    else if e[0].0 == k then Some(e[0].1)
    else Lookup(e[1..], k)
  }

  /** A lookup fails exactly when no property has the key, and succeeds with the value of a property that has it. */
  lemma {:induction false} LookupSpec(e: Entries, k: string)
    ensures Lookup(e, k).None? <==> forall i :: 0 <= i < |e| ==> e[i].0 != k
    ensures Lookup(e, k).Some? ==> (k, Lookup(e, k).value) in e
  {
    if e != [] && e[0].0 != k {
      LookupSpec(e[1..], k);
      assert forall i :: 1 <= i < |e| ==> e[i] == e[1..][i - 1];
      if Lookup(e, k).Some? {
        assert (k, Lookup(e, k).value) in e[1..];
      }
    }
  }

  /** With distinct keys, the entry at `i` is what a lookup of its key returns. */
  lemma {:induction false} LookupAt(e: Entries, i: nat)
    requires DistinctKeys(e) && i < |e|
    ensures Lookup(e, e[i].0) == Some(e[i].1)
  {
    if i > 0 {
      assert DistinctKeys(e[1..]);
      LookupAt(e[1..], i - 1);
    }
  }

  /** `delete obj[k]`: the property goes, the others keep their values and order. */
  function Remove(e: Entries, k: string): Entries {
    if e == [] then []
    else (if e[0].0 == k then [] else [e[0]]) + Remove(e[1..], k)
  }

  /** After `delete obj[k]`, `obj[k]` is missing and every other property is as it was. */
  lemma {:induction false} RemoveLookup(e: Entries, k: string)
    ensures forall k' :: Lookup(Remove(e, k), k') == if k' == k then None else Lookup(e, k')
  {
    if e != [] {
      RemoveLookup(e[1..], k);
      if e[0].0 != k {
        LookupCons(e[0], Remove(e[1..], k));
      } else {
        assert Remove(e, k) == Remove(e[1..], k);
      }
    }
  }

  /** Deleting keeps only properties that were there, so the keys stay distinct. */
  lemma {:induction false} RemoveDistinct(e: Entries, k: string)
    ensures forall x <- Remove(e, k) :: x in e
    ensures DistinctKeys(e) ==> DistinctKeys(Remove(e, k))
  {
    if e != [] {
      var rest := Remove(e[1..], k);
      RemoveDistinct(e[1..], k);
      assert forall x <- e[1..] :: x in e;
      DistinctTail(e);
      if e[0].0 != k {
        DistinctCons(e[0], rest);
      } else {
        assert Remove(e, k) == rest;
      }
    }
  }

  /**
   * `obj[k] = v`: an existing property keeps its place and takes the new
   * value; a new property is appended.
   */
  function Put(e: Entries, k: string, v: JsValue): Entries {
    if e == [] then [(k, v)]
    else if e[0].0 == k then [(k, v)] + e[1..]
    else [e[0]] + Put(e[1..], k, v)
  }

  /** After `obj[k] = v`, `obj[k]` is `v` and every other property is as it was. */
  lemma {:induction false} PutLookup(e: Entries, k: string, v: JsValue)
    ensures forall k' :: Lookup(Put(e, k, v), k') == if k' == k then Some(v) else Lookup(e, k')
  {
    if e != [] {
      if e[0].0 == k {
        LookupCons((k, v), e[1..]);
      } else {
        PutLookup(e[1..], k, v);
        LookupCons(e[0], Put(e[1..], k, v));
      }
    }
  }

  /** Assigning a property never gives an object a key twice. */
  lemma {:induction false} PutDistinct(e: Entries, k: string, v: JsValue)
    requires DistinctKeys(e)
    ensures DistinctKeys(Put(e, k, v))
  {
    if e != [] {
      DistinctTail(e);
      if e[0].0 == k {
        DistinctCons((k, v), e[1..]);
      } else {
        var rest := Put(e[1..], k, v);
        PutDistinct(e[1..], k, v);
        PutLookup(e[1..], k, v);
        LookupSpec(e[1..], e[0].0);
        LookupSpec(rest, e[0].0);
        forall x <- rest ensures x.0 != e[0].0 {
          var m :| 0 <= m < |rest| && rest[m] == x;
        }
        DistinctCons(e[0], rest);
      }
    }
  }

  /** Assigning a property keeps the keys in place; a new key goes last. */
  lemma {:induction false} PutKeys(e: Entries, k: string, v: JsValue)
    ensures Lookup(e, k).Some? ==> |Put(e, k, v)| == |e|
    ensures Lookup(e, k).Some? ==> forall i :: 0 <= i < |e| ==> Put(e, k, v)[i].0 == e[i].0
    ensures Lookup(e, k).None? ==> Put(e, k, v) == e + [(k, v)]
  {
    if e != [] && e[0].0 != k {
      PutKeys(e[1..], k, v);
      assert e == [e[0]] + e[1..];
    }
  }

  /** Assigning an existing property replaces its entry where it stands. */
  lemma {:induction false} PutAt(e: Entries, i: nat, v: JsValue)
    requires DistinctKeys(e) && i < |e|
    ensures Put(e, e[i].0, v) == e[i := (e[i].0, v)]
  {
    if i > 0 {
      assert e[0].0 != e[i].0;
      DistinctTail(e);
      PutAt(e[1..], i - 1, v);
      assert e[1..][i - 1] == e[i];
      assert [e[0]] + e[1..][i - 1 := (e[i].0, v)] == e[i := (e[i].0, v)];
    }
  }

  /** A lookup in `[h] + t` finds `h` first. */
  lemma LookupCons(h: (string, JsValue), t: Entries)
    ensures forall k :: Lookup([h] + t, k) == if h.0 == k then Some(h.1) else Lookup(t, k)
  {
    assert ([h] + t)[1..] == t;
  }

  /** Dropping the first entry keeps the keys distinct, and the first key is not among the rest. */
  lemma DistinctTail(e: Entries)
    requires e != []
    ensures DistinctKeys(e) ==> DistinctKeys(e[1..])
    ensures DistinctKeys(e) ==> forall x <- e[1..] :: x.0 != e[0].0
  {
    if DistinctKeys(e) {
      forall x <- e[1..] ensures x.0 != e[0].0 {
        var m :| 0 <= m < |e[1..]| && e[1..][m] == x;
        assert e[m + 1] == x;
      }
    }
  }

  /** Prepending an entry whose key is new keeps the keys distinct. */
  lemma DistinctCons(h: (string, JsValue), t: Entries)
    ensures DistinctKeys(t) && (forall x <- t :: x.0 != h.0) ==> DistinctKeys([h] + t)
  {
    if DistinctKeys(t) && (forall x <- t :: x.0 != h.0) {
      forall i, j | 0 <= i < j < |[h] + t| ensures ([h] + t)[i].0 != ([h] + t)[j].0 {
        if i == 0 {
          assert ([h] + t)[j] == t[j - 1] && t[j - 1] in t;
        }
      }
    }
  }

  /** A lookup in `e + [x]` finds `x` only when `e` has no property `k`. */
  lemma {:induction false} LookupSnoc(e: Entries, x: (string, JsValue), k: string)
    ensures Lookup(e + [x], k) ==
      if Lookup(e, k).Some? then Lookup(e, k) else if x.0 == k then Some(x.1) else None
  {
    if e != [] {
      assert (e + [x])[1..] == e[1..] + [x];
      LookupSnoc(e[1..], x, k);
    }
  }

  /** The last property's key is not among the others, and they keep distinct keys. */
  lemma DistinctInit(obj: Entries)
    requires DistinctKeys(obj) && obj != []
    ensures DistinctKeys(obj[..|obj| - 1])
    ensures Lookup(obj[..|obj| - 1], obj[|obj| - 1].0).None?
  {
    var init := obj[..|obj| - 1];
    forall i | 0 <= i < |init| ensures init[i].0 != obj[|obj| - 1].0 {
      assert obj[i] == init[i];
    }
    LookupSpec(init, obj[|obj| - 1].0);
  }
}
