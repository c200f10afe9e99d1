/** The configuration: JavaScript values as a datatype, `mergeConfigs` (a deep
    merge of user options onto the defaults), the default options, and the typed
    settings the widget reads out of the merged value. */
module Config {
  import opened Wrappers

  /** A JavaScript value as it can appear in a configuration object. */
  datatype Value =
    | Obj(fields: map<string, Value>)
    | Arr(elems: seq<Value>)
    | Str(s: string)
    | Num(n: int)
    | Bool(b: bool)
    | Null

  /** JavaScript truthiness. */
  predicate Truthy(v: Value) {
    match v
    case Obj(_) => true
    case Arr(_) => true
    case Str(s) => s != []
    case Num(n) => n != 0
    case Bool(b) => b
    case Null => false
  }

  function TypeOf(v: Value): string {
    match v
    case Obj(_) => "object"
    case Arr(_) => "object"
    case Null => "object"
    case Str(_) => "string"
    case Num(_) => "number"
    case Bool(_) => "boolean"
  }

  /** The test `value && typeof value === 'object' && !Array.isArray(value)`. */
  predicate IsPlainObject(v: Value) {
    Truthy(v) && TypeOf(v) == "object" && !v.Arr?
  }

  /** The test holds exactly of objects: not of arrays, `null` or scalars. */
  lemma PlainObjectIsObj(v: Value)
    ensures IsPlainObject(v) <==> v.Obj?
  {
  }

  // ---------------------------------------------------------------------------
  // Property keys of arrays and strings

  function DigitChar(d: nat): char
    requires d < 10
  {
    ('0' as int + d) as char
  }

  /** The canonical decimal spelling of an array index, as used for property keys. */
  function NatToString(n: nat): (s: string)
    ensures |s| >= 1 && (n >= 10 <==> |s| >= 2)
  {
    if n < 10 then [DigitChar(n)] else NatToString(n / 10) + [DigitChar(n % 10)]
  }

  lemma {:induction false} NatToStringInjective(a: nat, b: nat)
    requires NatToString(a) == NatToString(b)
    ensures a == b
  {
    if a >= 10 && b >= 10 {
      var sa, sb := NatToString(a), NatToString(b);
      assert sa[|sa| - 1] == sb[|sb| - 1];
      assert sa[..|sa| - 1] == NatToString(a / 10) && sb[..|sb| - 1] == NatToString(b / 10);
      NatToStringInjective(a / 10, b / 10);
    }
  }

  /** The own enumerable properties of `v || {}`, which is what the spread
      `{ ...v }` copies: an object's entries, an array's or a string's indexed
      elements, and nothing for any other value. */
  function OwnProps(v: Value): map<string, Value> {
    match v
    case Obj(m) => m
    case Arr(a) =>
      assert forall i, j :: 0 <= i < |a| && 0 <= j < |a| && NatToString(i) == NatToString(j) ==> i == j by {
        forall i: nat, j: nat | NatToString(i) == NatToString(j) ensures i == j {
          NatToStringInjective(i, j);
        }
      }
      map i | 0 <= i < |a| :: NatToString(i) := a[i]
    case Str(s) =>
      assert forall i, j :: 0 <= i < |s| && 0 <= j < |s| && NatToString(i) == NatToString(j) ==> i == j by {
        forall i: nat, j: nat | NatToString(i) == NatToString(j) ensures i == j {
          NatToStringInjective(i, j);
        }
      }
      map i | 0 <= i < |s| :: NatToString(i) := Str([s[i]])
    case _ => map[]
  }

  /** `v[key]`, where an absent property is `undefined` (written Null: both are falsy). */
  function Lookup(v: Value, key: string): Value {
    var props := OwnProps(v);
    if key in props then props[key] else Null
  }

  /** `v || {}`. */
  function OrEmpty(v: Value): Value {
    if Truthy(v) then v else Obj(map[])
  }

  // ---------------------------------------------------------------------------
  // mergeConfigs

  /** The merged value of one user entry. */
  function MergedValue(defaults: Value, key: string, value: Value): Value
    decreases value, 1
  {
    if IsPlainObject(value) then Obj(Merged(OrEmpty(Lookup(defaults, key)), value.fields)) else value
  }

  /** The value `mergeConfigs(defaults, user)` returns: the defaults' own
      properties, each user entry written over them. */
  function Merged(defaults: Value, user: map<string, Value>): map<string, Value>
    decreases Obj(user), 0
  {
    var base := OwnProps(defaults);
    map k | k in base.Keys + user.Keys ::
      if k in user then MergedValue(defaults, k, user[k]) else base[k]
  }

  /** The merge loop: copy the defaults, then write every user entry, recursing
      into plain objects. A fresh map is built, so `defaults` is never changed. */
  method MergeConfigs(defaultConfig: Value, userConfig: map<string, Value>) returns (merged: map<string, Value>)
    ensures merged == Merged(defaultConfig, userConfig)
    decreases Obj(userConfig)
  {
    merged := OwnProps(defaultConfig);
    var pending := userConfig.Keys;
    while pending != {}
      invariant pending <= userConfig.Keys
      invariant MergedExcept(merged, defaultConfig, userConfig, pending)
      decreases pending
    {
      var key :| key in pending;
      var value := userConfig[key];
      var entry;
      if IsPlainObject(value) {
        var sub := MergeConfigs(OrEmpty(Lookup(defaultConfig, key)), value.fields);
        entry := Obj(sub);
      } else {
        entry := value;
      }
      assert entry == MergedValue(defaultConfig, key, value);
      MergedExceptStep(merged, defaultConfig, userConfig, pending, key);
      merged := merged[key := entry];
      pending := pending - {key};
    }
    MergedExceptNone(merged, defaultConfig, userConfig);
  }

  /** The loop's invariant: `merged` holds every key of the defaults and every
      user key already written, the latter merged, the rest as in the defaults. */
  ghost predicate MergedExcept(merged: map<string, Value>, defaults: Value, user: map<string, Value>, pending: set<string>) {
    && merged.Keys == OwnProps(defaults).Keys + (user.Keys - pending)
    && forall k :: k in merged ==>
         merged[k] == if k in user && k !in pending then MergedValue(defaults, k, user[k])
                      else OwnProps(defaults)[k]
  }

  /** Writing one pending user entry keeps the invariant. */
  lemma MergedExceptStep(merged: map<string, Value>, defaults: Value, user: map<string, Value>, pending: set<string>, key: string)
    requires pending <= user.Keys && key in pending
    requires MergedExcept(merged, defaults, user, pending)
    ensures MergedExcept(merged[key := MergedValue(defaults, key, user[key])], defaults, user, pending - {key})
  {
  }

  /** With nothing pending the invariant is the merge itself. */
  lemma MergedExceptNone(merged: map<string, Value>, defaults: Value, user: map<string, Value>)
    requires MergedExcept(merged, defaults, user, {})
    ensures merged == Merged(defaults, user)
  {
    assert merged.Keys == Merged(defaults, user).Keys;
  }

  /** With no user options the merge gives back the defaults. */
  lemma MergeWithoutOverrides(defaults: Value)
    ensures Merged(defaults, map[]) == OwnProps(defaults)
  {
  }

  /** The entry laws of the merge: every key of either side is present; a key
      only the defaults have passes through; a value that is not a plain object
      (a scalar, an array, null) replaces the default outright; a plain object is
      merged recursively over the default's entry, or over `{}` when that entry
      is missing or falsy. */
  lemma MergeEntries(defaults: Value, user: map<string, Value>)
    ensures Merged(defaults, user).Keys == OwnProps(defaults).Keys + user.Keys
    ensures forall k :: k in OwnProps(defaults) && k !in user ==>
      Merged(defaults, user)[k] == OwnProps(defaults)[k]
    ensures forall k :: k in user && !user[k].Obj? ==> Merged(defaults, user)[k] == user[k]
    ensures forall k :: k in user && user[k].Obj? ==>
      Merged(defaults, user)[k] == Obj(Merged(OrEmpty(Lookup(defaults, k)), user[k].fields))
  {
  }

  /** Merging the same options a second time changes nothing. */
  lemma {:induction false} MergeIdempotent(defaults: Value, user: map<string, Value>)
    ensures Merged(Obj(Merged(defaults, user)), user) == Merged(defaults, user)
    decreases Obj(user)
  {
    var m := Merged(defaults, user);
    forall k | k in user && user[k].Obj?
      ensures MergedValue(Obj(m), k, user[k]) == m[k]
    {
      MergeIdempotent(OrEmpty(Lookup(defaults, k)), user[k].fields);
    }
  }

  // ---------------------------------------------------------------------------
  // Defaults and the options the widget reads

  datatype Shortcut = Shortcut(key: string, metaKey: bool, altKey: bool, ctrlKey: bool, shiftKey: bool)
  datatype Fields = Fields(title: bool, description: bool, section: bool)
  datatype SearchOptions = SearchOptions(minChars: int, maxResults: int, fields: Fields)
  datatype WidgetConfig = WidgetConfig(open: Shortcut, search: SearchOptions)

  /** DEFAULT_CONFIG, with its two sections named. */
  const DefaultShortcuts: Value := Obj(map[
    "open" := Obj(map[
      "key" := Str("/"), "metaKey" := Bool(true), "altKey" := Bool(false),
      "ctrlKey" := Bool(false), "shiftKey" := Bool(false)])])

  const DefaultSearch: Value := Obj(map[
    "minChars" := Num(2),
    "maxResults" := Num(8),
    "fields" := Obj(map["title" := Bool(true), "description" := Bool(true), "section" := Bool(true)])])

  const DefaultConfig: Value := Obj(map["shortcuts" := DefaultShortcuts, "search" := DefaultSearch])

  /** The settings DEFAULT_CONFIG stands for. */
  const Defaults: WidgetConfig :=
    WidgetConfig(Shortcut("/", true, false, false, false), SearchOptions(2, 8, Fields(true, true, true)))

  function ReadShortcut(v: Value): Option<Shortcut> {
    var key, meta, alt, ctrl, shift :=
      Lookup(v, "key"), Lookup(v, "metaKey"), Lookup(v, "altKey"), Lookup(v, "ctrlKey"), Lookup(v, "shiftKey");
    if key.Str? && meta.Bool? && alt.Bool? && ctrl.Bool? && shift.Bool? then
      Some(Shortcut(key.s, meta.b, alt.b, ctrl.b, shift.b))
    else None
  }

  function ReadSearch(v: Value): Option<SearchOptions> {
    var minChars, maxResults, fields := Lookup(v, "minChars"), Lookup(v, "maxResults"), Lookup(v, "fields");
    if minChars.Num? && maxResults.Num? && !fields.Null? then
      Some(SearchOptions(minChars.n, maxResults.n,
        Fields(Truthy(Lookup(fields, "title")), Truthy(Lookup(fields, "description")), Truthy(Lookup(fields, "section")))))
    else None
  }

  /** The options `CONFIG.shortcuts.open` and `CONFIG.search` as the widget uses
      them: the chord is compared with `===`, the numbers are compared and
      sliced with, the field switches are tested for truthiness. Options the
      widget cannot work with have no typed reading: a chord that is missing
      (every keydown would throw), a chord whose parts are not a string and four
      booleans (it would never match), a non-numeric limit, and a missing or
      `null` `fields` (every search that reaches the ranking over a non-empty
      index would throw). */
  function ReadConfig(config: map<string, Value>): Option<WidgetConfig> {
    var shortcuts := if "shortcuts" in config then config["shortcuts"] else Null;
    var search := if "search" in config then config["search"] else Null;
    var open := ReadShortcut(Lookup(shortcuts, "open"));
    var options := ReadSearch(search);
    if open.Some? && options.Some? then Some(WidgetConfig(open.value, options.value)) else None
  }

  /** `mergeConfigs(DEFAULT_CONFIG, {})`, the call `initSearch()` makes, yields
      the documented defaults: the chord `/` with only the meta key, two
      characters minimum, eight results, all three fields searched. */
  lemma DefaultsWhenNoUserConfig()
    ensures ReadConfig(Merged(DefaultConfig, map[])) == Some(Defaults)
  {
    MergeWithoutOverrides(DefaultConfig);
  }

  /** Merging `{ maxResults: n }` over the default search options replaces that
      one entry. */
  lemma SearchOverride(n: int)
    ensures Merged(DefaultSearch, map["maxResults" := Num(n)]) == DefaultSearch.fields["maxResults" := Num(n)]
  {
    MergeEntries(DefaultSearch, map["maxResults" := Num(n)]);
  }

  lemma MergedOverride(n: int)
    ensures Merged(DefaultConfig, map["search" := Obj(map["maxResults" := Num(n)])])
         == map["shortcuts" := DefaultShortcuts, "search" := Obj(DefaultSearch.fields["maxResults" := Num(n)])]
  {
    var user := map["search" := Obj(map["maxResults" := Num(n)])];
    MergeEntries(DefaultConfig, user);
    assert Lookup(DefaultConfig, "search") == DefaultSearch;
    SearchOverride(n);
  }

  lemma ReadOverride(n: int)
    ensures ReadConfig(map["shortcuts" := DefaultShortcuts, "search" := Obj(DefaultSearch.fields["maxResults" := Num(n)])])
         == Some(Defaults.(search := Defaults.search.(maxResults := n)))
  {
  }

  /** Overriding one nested option keeps its siblings: only `maxResults` changes. */
  lemma OverrideMaxResults(n: int)
    ensures ReadConfig(Merged(DefaultConfig, map["search" := Obj(map["maxResults" := Num(n)])]))
         == Some(Defaults.(search := Defaults.search.(maxResults := n)))
  {
    MergedOverride(n);
    ReadOverride(n);
  }
}
