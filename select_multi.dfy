/**
 * The list logic of the SelectMulti form control: how the `options` prop is
 * turned into `{label, value}` entries, which entries the drop-down offers,
 * what the form field receives when the user picks entries, which entries are
 * shown as picked for the current field value, and the two handlers that edit
 * the field directly (removing one value, adding a value the user typed).
 *
 * The form field value (`getValues(name)` / `setValue(name, ...)`) and the
 * `optionsCreated` state of the component are the two fields of
 * `SelectState`; everything else is a value.
 */
module SelectMulti {
  import opened Wrappers
  import opened Js

  /** One entry of the drop-down list; `caption` is its `label` property. */
  datatype Choice = Choice(caption: JsValue, value: JsValue)

  /**
   * What `toOptions` accepts: an array, a `Map` (its entries in insertion
   * order) or a plain object (its properties in `Object.entries` order).
   */
  datatype OptionsInput =
    | List(items: seq<JsValue>)
    | MapEntries(entries: seq<(JsValue, JsValue)>)
    | Record(props: Entries)

  /** The `options` prop: absent, given directly, or an async getter. */
  datatype OptionsSource = NoOptions | Static(input: OptionsInput) | Getter

  /** The `selectable` prop. */
  datatype Selectable = One | Many

  /** What is thrown when a property is read from null or undefined, or a non-iterable is spread. */
  const TypeError := "TypeError"

  /** `v[name]` for a value that is not null or undefined. */
  function Property(v: JsValue, name: string): (r: JsValue)
    ensures !v.Obj? ==> r == Undefined
  {
    match v
    case Obj(props) => (match Lookup(props, name) case Some(x) => x case None => Undefined)
    case _ => Undefined
  }

  /** `item.label !== undefined && item.value !== undefined`. */
  predicate IsChoiceItem(item: JsValue) {
    Property(item, "label") != Undefined && Property(item, "value") != Undefined
  }

  /** An item that `toOptions` passes through as a ready-made entry. */
  function AsChoice(item: JsValue): Choice {
    Choice(Property(item, "label"), Property(item, "value"))
  }

  /**
   * `items.every(item => item.label !== undefined && item.value !== undefined)`:
   * stops at the first item that fails, and throws when it reaches null or
   * undefined (reading a property of either throws).
   */
  function EveryChoice(items: seq<JsValue>): Result<bool, string> {
    if items == [] then Ok(true)
    else if Nullish(items[0]) then Err(TypeError)
    else if !IsChoiceItem(items[0]) then Ok(false)
    else EveryChoice(items[1..])
  }

  /** The first `n` items are all ready-made entries. */
  predicate ChoicesBefore(items: seq<JsValue>, n: nat)
    requires n <= |items|
  {
    forall j :: 0 <= j < n ==> IsChoiceItem(items[j])
  }

  /** `toOptions`. */
  function ToOptions(opts: OptionsInput): Result<seq<Choice>, string> {
    match opts
    case List(items) =>
      (match EveryChoice(items)
       case Err(e) => Err(e)
       case Ok(true) => Ok(seq(|items|, i requires 0 <= i < |items| => AsChoice(items[i])))
       case Ok(false) => Ok(seq(|items|, i requires 0 <= i < |items| => Choice(Str(ToJsString(items[i])), items[i]))))
    case MapEntries(entries) =>
      Ok(seq(|entries|, i requires 0 <= i < |entries| => Choice(Str(ToJsString(entries[i].1)), entries[i].0)))
    case Record(props) =>
      Ok(seq(|props|, i requires 0 <= i < |props| => Choice(Str(ToJsString(props[i].1)), Str(props[i].0))))
  }

  /** The values of the picked entries: what `options.map(option => option.value)` gives. */
  function Values(chosen: seq<Choice>): (vs: seq<JsValue>)
    ensures |vs| == |chosen|
    ensures forall i :: 0 <= i < |chosen| ==> vs[i] == chosen[i].value
  {
    seq(|chosen|, i requires 0 <= i < |chosen| => chosen[i].value)
  }

  /**
   * The `onChange` handler passed to the drop-down: with 'one' the field gets
   * the value of the last picked entry (null when there is none, and `??`
   * also turns an undefined or null value into null); with 'many' it gets the
   * array of all picked values.
   */
  function OnChange(selectable: Selectable, chosen: seq<Choice>): JsValue {
    match selectable
    case One =>
      if chosen == [] || Nullish(chosen[|chosen| - 1].value) then Null
      else chosen[|chosen| - 1].value
    case Many => Arr(Values(chosen))
  }

  /** The entries whose value prints as `key`, in list order. */
  function FilterByString(options: seq<Choice>, key: string): seq<Choice> {
    if options == [] then []
    else (if ToJsString(options[0].value) == key then [options[0]] else []) + FilterByString(options[1..], key)
  }

  /** `values.map(String)`. */
  function Strings(values: seq<JsValue>): (ss: seq<string>)
    ensures |ss| == |values|
    ensures forall i :: 0 <= i < |values| ==> ss[i] == ToJsString(values[i])
  {
    seq(|values|, i requires 0 <= i < |values| => ToJsString(values[i]))
  }

  /** The entries whose value prints as one of `keys`, in list order. */
  function FilterIncluded(options: seq<Choice>, keys: seq<string>): seq<Choice> {
    if options == [] then []
    else (if ToJsString(options[0].value) in keys then [options[0]] else []) + FilterIncluded(options[1..], keys)
  }

  /**
   * The entries shown as picked for the field value `value`: with 'one' those
   * whose value prints like `value`; with 'many' those whose value prints like
   * one of the array's elements (none for null or undefined). The value is
   * only looked at inside the filter callback, so with no entries nothing is
   * evaluated; otherwise a non-array has no `map` and throws.
   */
  function Shown(selectable: Selectable, options: seq<Choice>, value: JsValue): Result<seq<Choice>, string> {
    match selectable
    case One => Ok(FilterByString(options, ToJsString(value)))
    case Many =>
      if options == [] || Nullish(value) then Ok([])
      else if value.Arr? then Ok(FilterIncluded(options, Strings(value.items)))
      else Err(TypeError)
  }

  /** Each created string as an entry whose label and value are the string. */
  function CreatedChoices(created: seq<string>): (cs: seq<Choice>)
    ensures |cs| == |created|
    ensures forall i :: 0 <= i < |created| ==> cs[i] == Choice(Str(created[i]), Str(created[i]))
  {
    seq(|created|, i requires 0 <= i < |created| => Choice(Str(created[i]), Str(created[i])))
  }

  /** The created strings as the array `toOptions` receives. */
  function StrItems(created: seq<string>): (items: seq<JsValue>)
    ensures |items| == |created|
    ensures forall i :: 0 <= i < |created| ==> items[i] == Str(created[i])
  {
    seq(|created|, i requires 0 <= i < |created| => Str(created[i]))
  }

  /**
   * The offered entries: the created ones first, then those of the async
   * getter once it has answered (`loaded`), or those of a directly given
   * `options` prop. A getter and a direct prop exclude each other.
   */
  function Offered(created: seq<string>, source: OptionsSource, loaded: Option<OptionsInput>): Result<seq<Choice>, string> {
    var own := CreatedChoices(created);
    var extra :=
      match source
      case NoOptions => Ok([])
      case Static(opts) => ToOptions(opts)
      case Getter => (match loaded case None => Ok([]) case Some(opts) => ToOptions(opts));
    match extra
    case Ok(xs) => Ok(own + xs)
    case Err(e) => Err(e)
  }

  /** `[...(value || [])]`: a string spreads into its characters; other truthy non-arrays throw. */
  function CurrentItems(value: JsValue): Result<seq<JsValue>, string> {
    if !Truthy(value) then Ok([])
    else match value
      case Arr(items) => Ok(items)
      case Str(s) => Ok(seq(|s|, i requires 0 <= i < |s| => Str([s[i]])))
      case _ => Err(TypeError)
  }

  /** `currentValue.map(String).indexOf(key)`. */
  function IndexOfString(items: seq<JsValue>, key: string): Option<nat> {
    if items == [] then None
    else if ToJsString(items[0]) == key then Some(0)
    else match IndexOfString(items[1..], key)
      case None => None
      case Some(i) => Some(i + 1)
  }

  /** The field value after `unselect(value)`: the first element printing like `value` is cut out. */
  function Unselected(current: JsValue, value: JsValue): JsValue {
    if !current.Arr? then current
    else match IndexOfString(current.items, ToJsString(value))
      case None => current
      case Some(i) => if i < |current.items| then Arr(current.items[..i] + current.items[i + 1..]) else current
  }

  /** The component state the handlers change: the form field value and the created strings. */
  class SelectState {
    var selection: JsValue
    var created: seq<string>

    constructor (initial: JsValue)
      ensures selection == initial && created == []
    {
      selection := initial;
      created := [];
    }

    /** The `options` memo: pushes the created entries, then the async ones, then the direct ones. */
    method OfferedOptions(source: OptionsSource, loaded: Option<OptionsInput>) returns (r: Result<seq<Choice>, string>)
      ensures r == Offered(created, source, loaded)
    {
      var result: seq<Choice> := [];
      if |created| > 0 {
        CreatedToOptions(created);
        var own := ToOptions(List(StrItems(created)));
        result := result + own.value;
      }
      assert result == CreatedChoices(created);
      if source.Getter? && loaded.Some? {
        var more := ToOptions(loaded.value);
        if more.Err? {
          return Err(more.error);
        }
        result := result + more.value;
      } else if source.Static? {
        var more := ToOptions(source.input);
        if more.Err? {
          return Err(more.error);
        }
        result := result + more.value;
      } else {
        assert result + [] == result;
      }
      return Ok(result);
    }

    /** `unselect(value)`: removes the first element of the field's array that prints like `value`, in place. */
    method Unselect(value: JsValue)
      requires !Truthy(selection) || selection.Arr?
      modifies this
      ensures selection == Unselected(old(selection), value)
      ensures created == old(created)
    {
      var current := if Truthy(selection) then selection.items else [];
      var index := IndexOfString(current, ToJsString(value));
      if index.Some? {
        IndexOfStringSpec(current, ToJsString(value));
        current := current[..index.value] + current[index.value + 1..];
        selection := Arr(current);
      }
    }

    /**
     * `onCreateOption(value)`: records the raw string as created, appends it
     * to the field value and returns the entry with the trimmed string.
     */
    method OnCreateOption(value: string) returns (r: Result<Choice, string>)
      modifies this
      ensures created == old(created) + [value]
      ensures CurrentItems(old(selection)).Ok? ==>
                selection == Arr(CurrentItems(old(selection)).value + [Str(value)])
                && r == Ok(Choice(Str(Trim(value)), Str(Trim(value))))
      ensures CurrentItems(old(selection)).Err? ==> selection == old(selection) && r == Err(TypeError)
    {
      created := created + [value];
      var current := CurrentItems(selection);
      if current.Err? {
        return Err(current.error);
      }
      selection := Arr(current.value + [Str(value)]);
      var trimmed := Trim(value);
      return Ok(Choice(Str(trimmed), Str(trimmed)));
    }
  }

  // ---------------------------------------------------------------------------
  // toOptions

  lemma ChoicesShift(items: seq<JsValue>, n: nat)
    requires 1 <= n <= |items| && IsChoiceItem(items[0])
    ensures ChoicesBefore(items, n) <==> ChoicesBefore(items[1..], n - 1)
  {
    if ChoicesBefore(items[1..], n - 1) {
      forall j | 0 < j < n ensures IsChoiceItem(items[j]) {
        assert items[j] == items[1..][j - 1];
      }
    }
  }

  /**
   * The `every` guard: true exactly when all items are ready-made entries, and
   * it throws exactly when a null or undefined item comes after ready-made
   * entries only.
   */
  lemma {:induction false} EveryChoiceSpec(items: seq<JsValue>)
    ensures EveryChoice(items) == Ok(true) <==> ChoicesBefore(items, |items|)
    ensures EveryChoice(items).Err? <==> exists i :: 0 <= i < |items| && ChoicesBefore(items, i) && Nullish(items[i])
  {
    if items == [] {
    } else if Nullish(items[0]) {
      assert ChoicesBefore(items, 0);
      assert !IsChoiceItem(items[0]);
    } else if !IsChoiceItem(items[0]) {
      forall i | 0 < i <= |items| ensures !ChoicesBefore(items, i) {
        assert !IsChoiceItem(items[0]);
      }
    } else {
      var t := items[1..];
      EveryChoiceSpec(t);
      ChoicesShift(items, |items|);
      if EveryChoice(items).Err? {
        var i :| 0 <= i < |t| && ChoicesBefore(t, i) && Nullish(t[i]);
        ChoicesShift(items, i + 1);
        assert items[i + 1] == t[i];
      }
      if exists i :: 0 <= i < |items| && ChoicesBefore(items, i) && Nullish(items[i]) {
        var i :| 0 <= i < |items| && ChoicesBefore(items, i) && Nullish(items[i]);
        assert i > 0;
        ChoicesShift(items, i);
        assert t[i - 1] == items[i];
      }
    }
  }

  /**
   * An array of ready-made entries is taken as it is (each item's own label
   * and value); an array of anything else gets one entry per element, in
   * order, labelled with the element's string form and valued with the
   * element itself; and `toOptions` throws only when `every` reaches a null or
   * undefined element.
   */
  lemma ToOptionsList(items: seq<JsValue>)
    ensures ToOptions(List(items)).Err? <==> exists i :: 0 <= i < |items| && ChoicesBefore(items, i) && Nullish(items[i])
    ensures ChoicesBefore(items, |items|) ==>
              ToOptions(List(items)).Ok? && |ToOptions(List(items)).value| == |items|
              && forall i :: 0 <= i < |items| ==> ToOptions(List(items)).value[i] == AsChoice(items[i])
    ensures ToOptions(List(items)).Ok? && !ChoicesBefore(items, |items|) ==>
              |ToOptions(List(items)).value| == |items|
              && forall i :: 0 <= i < |items| ==> ToOptions(List(items)).value[i] == Choice(Str(ToJsString(items[i])), items[i])
  {
    EveryChoiceSpec(items);
  }

  /** An array of primitive values never throws and picking every entry in 'many' mode gives the array back. */
  lemma ToOptionsPrimitivesRoundTrip(items: seq<JsValue>)
    requires forall i :: 0 <= i < |items| ==> !items[i].Obj? && !Nullish(items[i])
    ensures ToOptions(List(items)).Ok?
    ensures items != [] ==> forall i :: 0 <= i < |items| ==>
              ToOptions(List(items)).value[i] == Choice(Str(ToJsString(items[i])), items[i])
    ensures OnChange(Many, ToOptions(List(items)).value) == Arr(items)
  {
    EveryChoiceSpec(items);
    if items != [] {
      assert !IsChoiceItem(items[0]);
    }
    var r := ToOptions(List(items)).value;
    assert Values(r) == items;
  }

  /** The created strings always become entries whose label and value are the string. */
  lemma CreatedToOptions(created: seq<string>)
    ensures ToOptions(List(StrItems(created))) == Ok(CreatedChoices(created))
  {
    var items := StrItems(created);
    EveryChoiceSpec(items);
    if created == [] {
      return;
    }
    assert !IsChoiceItem(items[0]) && !ChoicesBefore(items, |items|);
    assert forall i :: 0 <= i < |items| ==> !Nullish(items[i]);
    assert EveryChoice(items) == Ok(false);
    var r := ToOptions(List(items)).value;
    forall i | 0 <= i < |created| ensures r[i] == CreatedChoices(created)[i] {
      assert ToJsString(items[i]) == created[i];
    }
    assert r == CreatedChoices(created);
  }

  /**
   * A `Map` gives one entry per map entry, in entry order, valued with the key
   * and labelled with the string form of the entry's value; picking every
   * entry in 'many' mode gives the keys.
   */
  lemma ToOptionsMap(entries: seq<(JsValue, JsValue)>)
    ensures ToOptions(MapEntries(entries)).Ok?
    ensures |ToOptions(MapEntries(entries)).value| == |entries|
    ensures forall i :: 0 <= i < |entries| ==>
              ToOptions(MapEntries(entries)).value[i].caption == Str(ToJsString(entries[i].1))
    ensures OnChange(Many, ToOptions(MapEntries(entries)).value) == Arr(seq(|entries|, i requires 0 <= i < |entries| => entries[i].0))
  {
    var r := ToOptions(MapEntries(entries)).value;
    assert Values(r) == seq(|entries|, i requires 0 <= i < |entries| => entries[i].0);
  }

  /**
   * A plain object gives one entry per property, in property order, valued
   * with the key as a string and labelled with the string form of the
   * property's value; picking every entry in 'many' mode stores the keys as
   * strings.
   */
  lemma ToOptionsRecord(props: Entries)
    requires DistinctKeys(props)
    ensures ToOptions(Record(props)).Ok?
    ensures |ToOptions(Record(props)).value| == |props|
    ensures forall i :: 0 <= i < |props| ==>
              ToOptions(Record(props)).value[i].value == Str(props[i].0)
              && Lookup(props, props[i].0).Some?
              && ToOptions(Record(props)).value[i].caption == Str(ToJsString(Lookup(props, props[i].0).value))
    ensures OnChange(Many, ToOptions(Record(props)).value) == Arr(StrItems(Keys(props)))
  {
    var r := ToOptions(Record(props)).value;
    forall i | 0 <= i < |props|
      ensures Lookup(props, props[i].0) == Some(props[i].1)
    {
      LookupAt(props, i);
    }
    assert Values(r) == StrItems(Keys(props));
  }

  // ---------------------------------------------------------------------------
  // The options memo

  /**
   * The offered list starts with the created entries, each labelled and
   * valued with its string, and continues with the entries of whichever
   * source is in effect: the getter's answer once loaded, or the direct prop.
   */
  lemma OfferedOrder(created: seq<string>, source: OptionsSource, loaded: Option<OptionsInput>)
    requires Offered(created, source, loaded).Ok?
    ensures var r := Offered(created, source, loaded).value;
            |created| <= |r|
            && (forall i :: 0 <= i < |created| ==> r[i] == Choice(Str(created[i]), Str(created[i])))
            && (source.Static? ==> r[|created|..] == ToOptions(source.input).value)
            && (source.Getter? && loaded.Some? ==> r[|created|..] == ToOptions(loaded.value).value)
            && (source.NoOptions? || (source.Getter? && loaded.None?) ==> |r| == |created|)
  {
    var r := Offered(created, source, loaded).value;
    var own := CreatedChoices(created);
    assert r[..|own|] == own;
  }

  // ---------------------------------------------------------------------------
  // onChange and the picked entries

  lemma {:induction false} FilterByStringSpec(options: seq<Choice>, key: string)
    ensures forall o :: o in FilterByString(options, key) <==> o in options && ToJsString(o.value) == key
  {
    if options != [] {
      FilterByStringSpec(options[1..], key);
      assert options == [options[0]] + options[1..];
    }
  }

  lemma {:induction false} FilterIncludedSpec(options: seq<Choice>, keys: seq<string>)
    ensures forall o :: o in FilterIncluded(options, keys) <==> o in options && ToJsString(o.value) in keys
  {
    if options != [] {
      FilterIncludedSpec(options[1..], keys);
      assert options == [options[0]] + options[1..];
    }
  }

  /**
   * In 'one' mode, after the user picks entries the control shows as picked
   * exactly the offered entries that print like the last pick, so the last
   * pick itself when it is offered.
   */
  lemma PickOneShown(options: seq<Choice>, chosen: seq<Choice>)
    requires chosen != [] && !Nullish(chosen[|chosen| - 1].value)
    ensures Shown(One, options, OnChange(One, chosen)).Ok?
    ensures forall o :: o in Shown(One, options, OnChange(One, chosen)).value <==>
              o in options && ToJsString(o.value) == ToJsString(chosen[|chosen| - 1].value)
    ensures chosen[|chosen| - 1] in options ==> chosen[|chosen| - 1] in Shown(One, options, OnChange(One, chosen)).value
  {
    FilterByStringSpec(options, ToJsString(chosen[|chosen| - 1].value));
  }

  /**
   * In 'one' mode, when nothing was picked or the last pick has a null or
   * undefined value, the field holds null and the control shows as picked
   * exactly the offered entries whose value prints like "null".
   */
  lemma PickOneNothingShown(options: seq<Choice>, chosen: seq<Choice>)
    requires chosen == [] || Nullish(chosen[|chosen| - 1].value)
    ensures OnChange(One, chosen) == Null
    ensures Shown(One, options, OnChange(One, chosen)).Ok?
    ensures forall o :: o in Shown(One, options, OnChange(One, chosen)).value <==>
              o in options && ToJsString(o.value) == "null"
  {
    FilterByStringSpec(options, "null");
  }

  /** For an array value, 'many' filters the entries by the array's string forms, with or without entries. */
  lemma ShownArray(options: seq<Choice>, items: seq<JsValue>)
    ensures Shown(Many, options, Arr(items)) == Ok(FilterIncluded(options, Strings(items)))
  {
  }

  /**
   * In 'many' mode, after the user picks entries the control shows as picked
   * exactly the offered entries that print like one of the picks, so every
   * offered pick.
   */
  lemma PickManyShown(options: seq<Choice>, chosen: seq<Choice>)
    ensures Shown(Many, options, OnChange(Many, chosen)).Ok?
    ensures forall o :: o in Shown(Many, options, OnChange(Many, chosen)).value <==>
              o in options && exists c :: c in chosen && ToJsString(c.value) == ToJsString(o.value)
    ensures forall c :: c in chosen && c in options ==> c in Shown(Many, options, OnChange(Many, chosen)).value
  {
    var keys := Strings(Values(chosen));
    ShownArray(options, Values(chosen));
    FilterIncludedSpec(options, keys);
    forall o: Choice ensures ToJsString(o.value) in keys <==> exists c :: c in chosen && ToJsString(c.value) == ToJsString(o.value) {
      if ToJsString(o.value) in keys {
        var i :| 0 <= i < |keys| && keys[i] == ToJsString(o.value);
        assert chosen[i] in chosen;
      }
      if exists c :: c in chosen && ToJsString(c.value) == ToJsString(o.value) {
        var c :| c in chosen && ToJsString(c.value) == ToJsString(o.value);
        var i :| 0 <= i < |chosen| && chosen[i] == c;
        assert keys[i] == ToJsString(o.value);
      }
    }
  }

  // ---------------------------------------------------------------------------
  // unselect

  /** `indexOf`: the first position whose element prints as `key`, or none. */
  lemma {:induction false} IndexOfStringSpec(items: seq<JsValue>, key: string)
    ensures IndexOfString(items, key).None? <==> forall i :: 0 <= i < |items| ==> ToJsString(items[i]) != key
    ensures IndexOfString(items, key).Some? ==>
              IndexOfString(items, key).value < |items|
              && ToJsString(items[IndexOfString(items, key).value]) == key
              && forall j :: 0 <= j < IndexOfString(items, key).value ==> ToJsString(items[j]) != key
  {
    if items != [] && ToJsString(items[0]) != key {
      IndexOfStringSpec(items[1..], key);
      assert forall i :: 0 < i < |items| ==> items[i] == items[1..][i - 1];
    }
  }

  /**
   * `unselect` cuts out exactly one element, the first that prints like the
   * value, leaving the others in order; it changes nothing when no element
   * does, or when the field holds no array.
   */
  lemma UnselectedSpec(current: JsValue, value: JsValue)
    ensures !current.Arr? ==> Unselected(current, value) == current
    ensures current.Arr? && (forall i :: 0 <= i < |current.items| ==> ToJsString(current.items[i]) != ToJsString(value))
            ==> Unselected(current, value) == current
    ensures current.Arr? && (exists i :: 0 <= i < |current.items| && ToJsString(current.items[i]) == ToJsString(value)) ==>
              exists i :: 0 <= i < |current.items|
                && ToJsString(current.items[i]) == ToJsString(value)
                && (forall j :: 0 <= j < i ==> ToJsString(current.items[j]) != ToJsString(value))
                && Unselected(current, value) == Arr(current.items[..i] + current.items[i + 1..])
    ensures current.Arr? ==>
              (Unselected(current, value).Arr?
               && multiset(Unselected(current, value).items) <= multiset(current.items)
               && |current.items| - 1 <= |Unselected(current, value).items| <= |current.items|)
  {
    if current.Arr? {
      var items := current.items;
      var key := ToJsString(value);
      IndexOfStringSpec(items, key);
      match IndexOfString(items, key)
      case None =>
      case Some(i) =>
        var rest := items[..i] + items[i + 1..];
        assert Unselected(current, value) == Arr(rest);
        WithoutAt(items, i);
        assert multiset(rest) <= multiset(items);
    }
  }

  /** Leaving out one element keeps the others and one fewer of it. */
  lemma WithoutAt<T>(items: seq<T>, i: nat)
    requires i < |items|
    ensures multiset(items[..i] + items[i + 1..]) + multiset{items[i]} == multiset(items)
    ensures |items[..i] + items[i + 1..]| == |items| - 1
  {
    assert items == items[..i] + [items[i]] + items[i + 1..];
  }

  // ---------------------------------------------------------------------------
  // onCreateOption

  /**
   * A typed string ends up offered as the entry labelled and valued with the
   * raw string, and in 'many' mode the new field value shows it as picked;
   * the entry the handler returns carries the trimmed string instead, so it
   * is that same entry only when the string has no surrounding white space.
   */
  lemma CreatedOptionShown(created: seq<string>, source: OptionsSource, loaded: Option<OptionsInput>,
                           current: seq<JsValue>, value: string)
    requires Offered(created + [value], source, loaded).Ok?
    ensures Choice(Str(value), Str(value)) in Offered(created + [value], source, loaded).value
    ensures Shown(Many, Offered(created + [value], source, loaded).value, Arr(current + [Str(value)])).Ok?
    ensures Choice(Str(value), Str(value)) in Shown(Many, Offered(created + [value], source, loaded).value, Arr(current + [Str(value)])).value
    ensures Choice(Str(Trim(value)), Str(Trim(value))) == Choice(Str(value), Str(value)) <==> Trim(value) == value
  {
    var all := created + [value];
    var r := Offered(all, source, loaded).value;
    OfferedOrder(all, source, loaded);
    assert r[|created|] == Choice(Str(value), Str(value));
    var keys := Strings(current + [Str(value)]);
    assert keys[|current|] == value;
    ShownArray(r, current + [Str(value)]);
    FilterIncludedSpec(r, keys);
  }
}
