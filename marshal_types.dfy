/**
 * The values the Python marshaller and unmarshaller work on: Python data,
 * the `null` and `missing` sentinels, the nested errors dict, the
 * `ValidationError` exception, and field objects reduced to their flags and
 * their (foreign) serialize/deserialize behaviour.
 */
module MarshalTypes {

  datatype Option<T> = None | Some(value: T)

  /** Python data as the marshalling code sees it. `Null` and `Missing` are
      the `null` and `missing` singletons; a dict keeps its insertion order. */
  datatype Value =
    | PyNone
    | Null
    | Missing
    | Bool(b: bool)
    | Int(i: int)
    | Str(s: string)
    | List(items: seq<Value>)
    | Dict(entries: seq<(string, Value)>)
    | Object(id: nat)

  /** `type(v).__name__`, for the "Data must be a dict" message. */
  function TypeName(v: Value): string {
    match v
    case PyNone => "NoneType"
    case Null => "_Null"
    case Missing => "_Missing"
    case Bool(_) => "bool"
    case Int(_) => "int"
    case Str(_) => "str"
    case List(_) => "list"
    case Dict(_) => "dict"
    case Object(_) => "object"
  }

  // ---------------------------------------------------------------------
  // Ordered dicts with string keys
  // ---------------------------------------------------------------------

  ghost predicate DistinctKeys(d: seq<(string, Value)>) {
    forall i, j | 0 <= i < j < |d| :: d[i].0 != d[j].0
  }

  /** `d.get(k)`: the value stored under `k`, if any. */
  function Get(d: seq<(string, Value)>, k: string): (r: Option<Value>)
    ensures r.Some? <==> exists i | 0 <= i < |d| :: d[i].0 == k
    ensures r.Some? ==> exists i | 0 <= i < |d| :: d[i] == (k, r.value)
    decreases |d|
  {
    if d == [] then None
    else if d[0].0 == k then Some(d[0].1)
    else
      var r := Get(d[1..], k);
      assert forall i | 0 <= i < |d| - 1 :: d[1..][i] == d[i + 1];
      r
  }

  /** `d.get(k, missing)`. */
  function GetOrMissing(d: seq<(string, Value)>, k: string): (r: Value)
    ensures Get(d, k).Some? ==> r == Get(d, k).value
    ensures (forall i | 0 <= i < |d| :: d[i].0 != k) ==> r == Missing
  {
    match Get(d, k)
    case Some(v) => v
    case None => Missing
  }

  /** The position of key `k` in `d`. */
  function IndexOf(d: seq<(string, Value)>, k: string): (i: nat)
    requires exists i | 0 <= i < |d| :: d[i].0 == k
    ensures i < |d| && d[i].0 == k
    ensures forall j | 0 <= j < i :: d[j].0 != k
    decreases |d|
  {
    if d[0].0 == k then 0
    else
      assert exists i | 0 <= i < |d[1..]| :: d[1..][i].0 == k by {
        var i :| 0 <= i < |d| && d[i].0 == k;
        assert d[1..][i - 1] == d[i];
      }
      1 + IndexOf(d[1..], k)
  }

  /** `d[k] = v`: an existing key keeps its place, a new key goes last. */
  function SetItem(d: seq<(string, Value)>, k: string, v: Value): (r: seq<(string, Value)>)
    ensures DistinctKeys(d) ==> DistinctKeys(r)
    ensures Get(r, k) == Some(v)
    ensures forall k' | k' != k :: Get(r, k') == Get(d, k')
  {
    if exists i | 0 <= i < |d| :: d[i].0 == k then
      var i := IndexOf(d, k);
      var r := d[i := (k, v)];
      assert forall k' | k' != k :: Get(r, k') == Get(d, k') by {
        forall k' | k' != k ensures Get(r, k') == Get(d, k') {
          SetItemKeepsOthers(d, i, k, v, k');
        }
      }
      FirstMatch(r, i, k);
      r
    else
      var r := d + [(k, v)];
      assert forall k' | k' != k :: Get(r, k') == Get(d, k') by {
        forall k' | k' != k ensures Get(r, k') == Get(d, k') {
          AppendKeepsOthers(d, k, v, k');
        }
      }
      FirstMatch(r, |d|, k);
      r
  }

  lemma {:induction false} FirstMatch(d: seq<(string, Value)>, i: nat, k: string)
    requires i < |d| && d[i].0 == k
    requires forall j | 0 <= j < i :: d[j].0 != k
    ensures Get(d, k) == Some(d[i].1)
    decreases i
  {
    if i > 0 {
      FirstMatch(d[1..], i - 1, k);
    }
  }

  lemma {:induction false} SetItemKeepsOthers(d: seq<(string, Value)>, i: nat, k: string, v: Value, k': string)
    requires i < |d| && d[i].0 == k && k' != k
    ensures Get(d[i := (k, v)], k') == Get(d, k')
    decreases |d|
  {
    if i > 0 {
      assert d[i := (k, v)][1..] == d[1..][i - 1 := (k, v)];
      SetItemKeepsOthers(d[1..], i - 1, k, v, k');
    }
  }

  lemma {:induction false} AppendKeepsOthers(d: seq<(string, Value)>, k: string, v: Value, k': string)
    requires k' != k
    ensures Get(d + [(k, v)], k') == Get(d, k')
    decreases |d|
  {
    if d != [] {
      assert (d + [(k, v)])[1..] == d[1..] + [(k, v)];
      AppendKeepsOthers(d[1..], k, v, k');
    }
  }

  /** Setting a key the dict does not have appends it. */
  lemma SetItemNewKey(d: seq<(string, Value)>, k: string, v: Value)
    requires forall i | 0 <= i < |d| :: d[i].0 != k
    ensures SetItem(d, k, v) == d + [(k, v)]
  {
  }

  /** `dict(items)`: the pairs stored one after another, so that a repeated
      key keeps its first place and its last value. */
  function DictOf(items: seq<(string, Value)>): (d: seq<(string, Value)>)
    ensures DistinctKeys(d)
    decreases |items|
  {
    if items == [] then []
    else SetItem(DictOf(items[..|items| - 1]), items[|items| - 1].0, items[|items| - 1].1)
  }

  /** The value `dict(items)` holds for a key is the last one paired with it. */
  lemma {:induction false} DictOfGet(items: seq<(string, Value)>, k: string, i: nat)
    requires i < |items| && items[i].0 == k
    requires forall j | i < j < |items| :: items[j].0 != k
    ensures Get(DictOf(items), k) == Some(items[i].1)
    decreases |items|
  {
    if i < |items| - 1 {
      DictOfGet(items[..|items| - 1], k, i);
    }
  }

  /** Pairs with distinct keys make a dict that keeps them all, in order. */
  lemma {:induction false} DictOfDistinct(items: seq<(string, Value)>)
    requires DistinctKeys(items)
    ensures DictOf(items) == items
    decreases |items|
  {
    if items != [] {
      var init := items[..|items| - 1];
      DictOfDistinct(init);
      var last := items[|items| - 1];
      forall i | 0 <= i < |init| ensures init[i].0 != last.0 {
        assert init[i] == items[i];
      }
      SetItemNewKey(init, last.0, last.1);
      assert init + [last] == items;
    }
  }

  // ---------------------------------------------------------------------
  // The errors dict and ValidationError
  // ---------------------------------------------------------------------

  /** A key of the errors dict: a field name, or the index of an element
      of a collection. */
  datatype ErrKey = Name(name: string) | Index(i: int)

  /** What the errors dict holds: message strings, lists of them, and nested
      dicts (per element, or from a nested schema). */
  datatype ErrVal = Text(s: string) | MsgList(items: seq<ErrVal>) | MsgDict(entries: map<ErrKey, ErrVal>)

  /** `ValidationError.messages`, as the exception class normalises it: a
      single message string becomes a one-element list. */
  datatype Messages = ListMessages(items: seq<ErrVal>) | DictMessages(entries: map<ErrKey, ErrVal>)

  datatype ValidationError = ValidationError(messages: Messages, fieldNames: seq<string>, fields: seq<Field>)

  /** A raised exception: a `ValidationError`, or any other class by name. */
  datatype Exception = Validation(err: ValidationError) | Other(name: string)

  /** A call that returns a value or raises. */
  datatype Outcome<T> = Ok(value: T) | Raise(exc: Exception)

  /** The results of a collection as one Python list, or the exception. */
  function AsList(r: Outcome<seq<Value>>): (v: Outcome<Value>)
    ensures v.Ok? <==> r.Ok?
    ensures r.Ok? ==> v.value == List(r.value)
    ensures r.Raise? ==> v.exc == r.exc
  {
    match r
    case Ok(items) => Ok(List(items))
    case Raise(e) => Raise(e)
  }

  /** The `accessor` passed through `serialize` to the fields. */
  datatype Accessor = DefaultAccessor | CustomAccessor(get: (string, Value) -> Value)

  /** A field object: its flags, and its own serialize/deserialize behaviour
      and `SKIPPABLE_VALUES`, which the model takes as given. An empty
      `attribute` or `loadFrom` stands for a falsy one (`None` or `''`);
      `missing` is `Null` when the field has no default. */
  datatype Field = Field(
    loadOnly: bool,
    dumpOnly: bool,
    required: bool,
    attribute: string,
    loadFrom: string,
    missing: Value,
    serialize: (string, Value, Accessor) -> Outcome<Value>,
    deserialize: Value -> Outcome<Value>,
    skippable: Value -> bool)

  /** `fields_dict`: field names and field objects in the dict's order. */
  type FieldsDict = seq<(string, Field)>

  ghost predicate DistinctNames(fields: FieldsDict) {
    forall i, j | 0 <= i < j < |fields| :: fields[i].0 != fields[j].0
  }

  /** `fields_dict[name]`, or `None` for the `KeyError`. */
  function FieldNamed(fields: FieldsDict, name: string): (r: Option<Field>)
    ensures r.Some? <==> exists i | 0 <= i < |fields| :: fields[i].0 == name
    ensures r.Some? ==> exists i | 0 <= i < |fields| :: fields[i] == (name, r.value) && FirstNamed(fields, name, i)
    decreases |fields|
  {
    if fields == [] then None
    else if fields[0].0 == name then Some(fields[0].1)
    else
      var r := FieldNamed(fields[1..], name);
      assert forall i | 0 <= i < |fields| - 1 :: fields[1..][i] == fields[i + 1];
      assert r.Some? ==> exists i | 0 <= i < |fields| :: fields[i] == (name, r.value) && FirstNamed(fields, name, i) by {
        if r.Some? {
          var i :| 0 <= i < |fields[1..]| && fields[1..][i] == (name, r.value) && FirstNamed(fields[1..], name, i);
          assert FirstNamed(fields, name, i + 1);
        }
      }
      r
  }

  /** No entry before position `i` is named `name`. */
  ghost predicate FirstNamed(fields: FieldsDict, name: string, i: int) {
    forall j | 0 <= j < i && j < |fields| :: fields[j].0 != name
  }

  /** What `dict(v)` raises, if anything. A dict converts; so does an
      iterable of key-value pairs (lists, strings and dicts of length two
      whose first item is hashable), which leaves the empty string and the
      empty list. Anything that is not iterable raises `TypeError`. Objects
      are taken to be neither mappings nor iterable. */
  function DictConversionError(v: Value): (r: Option<string>)
    ensures v.Dict? ==> r.None?
    ensures v == PyNone ==> r == Some("TypeError")
    ensures v.List? && r.None? ==> forall i | 0 <= i < |v.items| :: PairLike(v.items[i])
  {
    match v
    case Dict(_) => None
    case Str(s) => if s == "" then None else Some("ValueError")
    case List(items) => PairsError(items)
    case _ => Some("TypeError")
  }

  /** Python's lists and dicts cannot be dict keys; every other value can. */
  predicate Hashable(v: Value) {
    !v.List? && !v.Dict?
  }

  /** An element `dict()` can take as a key-value pair. A one-character
      string and a dict key are always hashable. */
  predicate PairLike(e: Value) {
    match e
    case List(items) => |items| == 2 && Hashable(items[0])
    case Str(s) => |s| == 2
    case Dict(entries) => |entries| == 2
    case _ => false
  }

  /** What `dict()` raises on one element: `TypeError` for an element that
      is not iterable or whose key is unhashable, `ValueError` for an
      iterable of another length. */
  function PairError(e: Value): (r: Option<string>)
    ensures r.None? <==> PairLike(e)
    ensures r.Some? ==> r.value == "TypeError" || r.value == "ValueError"
    ensures e.List? && |e.items| == 2 && !Hashable(e.items[0]) ==> r == Some("TypeError")
  {
    match e
    case List(items) => if |items| != 2 then Some("ValueError") else if !Hashable(items[0]) then Some("TypeError") else None
    case Str(s) => if |s| == 2 then None else Some("ValueError")
    case Dict(entries) => if |entries| == 2 then None else Some("ValueError")
    case _ => Some("TypeError")
  }

  /** What `dict()` raises on a list of elements: the error of the first
      element that is no pair. */
  function PairsError(items: seq<Value>): (r: Option<string>)
    ensures r.None? <==> forall i | 0 <= i < |items| :: PairLike(items[i])
    ensures r.Some? ==> exists i | 0 <= i < |items| ::
                          && (forall j | 0 <= j < i :: PairLike(items[j]))
                          && r == PairError(items[i])
    decreases |items|
  {
    if items == [] then None
    else if PairLike(items[0]) then
      var r := PairsError(items[1..]);
      assert forall i | 1 <= i < |items| :: items[1..][i - 1] == items[i];
      assert r.Some? ==> exists i | 0 <= i < |items| :: (forall j | 0 <= j < i :: PairLike(items[j])) && r == PairError(items[i]) by {
        if r.Some? {
          var k :| 0 <= k < |items| - 1 && (forall j | 0 <= j < k :: PairLike(items[1..][j])) && r == PairError(items[1..][k]);
          assert forall j | 0 <= j < k + 1 :: PairLike(items[j]) by {
            forall j | 0 <= j < k + 1 ensures PairLike(items[j]) {
              if j > 0 { assert items[j] == items[1..][j - 1]; }
            }
          }
        }
      }
      r
    else
      PairError(items[0])
  }

  /** A schema-level validator: its name, and its verdict on the output and
      the raw data (a validator of one argument ignores the second). */
  datatype Validator = Validator(name: string, run: (Value, Value) -> Outcome<Value>)

  /** The message recorded for a validator that returned `False`. */
  function FalseMessage(name: string): string {
    "Schema validator " + name + "(...) is False"
  }
}
