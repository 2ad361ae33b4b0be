# marshmallow marshalling core, modelled in Dafny

This project models the part of marshmallow that turns objects into dicts and
dicts back into data, together with the error bookkeeping the two share, and
proves properties of that model.

It has two halves.

- **The C accelerator** (`ext/marshaller.c`), in `ext_marshaller.dfy`.
  - Python objects live on an explicit heap of references. Each object has an
    item table and an attribute table.
  - `get_value_from_object` resolves a key on an object.
    - An exact int key is an item lookup.
    - An exact str key is split on `.` and walked segment by segment: item
      access first, attribute access second.
    - On failure the caller's default comes back. Any other key gives `None`.
  - `marshal_one` allocates a fresh dict as the default, then fills the result
    in the fields dict's order. A field whose `_serialize` raises writes
    nothing.
  - `marshaller_marshal` does that for one object, or for each object of a
    list, and always returns an empty errors dict.
- **The Python marshalling module** (`marshmallow/marshalling.py`).
  - `marshal_types.dfy`: Python values, including the `null` and `missing`
    singletons; ordered dicts; the nested errors dict; `ValidationError`;
    field objects.
  - `error_store.dfy`: `ErrorStore`, a class with the errors dict, the failing
    fields and names, and `_pending`. It has `reset_errors` and
    `call_and_store`.
  - `serializing.dfy`: `Marshaller.serialize`.
  - `deserializing.dfy`: `Unmarshaller.deserialize` and `_validate`.

Every method that changes state is proved against a pure function of the old
state. That function gives the result and the new bookkeeping. The lemmas then
state what those functions promise:
- the output is exactly the non-skipped fields;
- keys are distinct;
- an exception ends a loop;
- per-element errors stay under their own index;
- schema validators never touch per-element entries;
- element `i` of a collection is the single-object result for element `i`.

`Marshaller` and `Unmarshaller` each hold their own `ErrorStore` (the `store`
field), in place of inheriting from it. In `many` mode, an exception from an element
ends the collection and leaves `_pending` set, exactly as the source does. The
postconditions of `Serialize` and `Deserialize` say so.

## Model

| member | source | states |
|---|---|---|
| ExtMarshaller.Split | ext/marshaller.c:33-34 | `str.split('.')` gives at least one segment, and no segment contains a dot |
| ExtMarshaller.JoinSplit | ext/marshaller.c:33-34 | joining the segments with dots gives back the key |
| ExtMarshaller.SplitJoin | ext/marshaller.c:33-34 | dot-free segments are recovered exactly from their join |
| ExtMarshaller.Step | ext/marshaller.c:41-51 | one segment fails exactly when both item and attribute access fail; item access wins when it succeeds, and otherwise the attribute is the result |
| ExtMarshaller.Walk | ext/marshaller.c:39-54 | no segments leave the start object; a successful walk over segments starts from a live object whose first segment resolves |
| ExtMarshaller.LookupKey | ext/marshaller.c:17-59 | the key is unsupported exactly when it is neither an exact int nor an exact str; what is found from a live object is live |
| ExtMarshaller.LookupKeyFound | ext/marshaller.c:21-54 | an int key finds exactly the item stored under it; a str key finds something exactly when its walk over the dotted segments succeeds, and finds the object the walk ends on |
| ExtMarshaller.Resolve | ext/marshaller.c:17-59 | an unsupported key gives `None`; from a live object the result is a live object or the caller's default |
| ExtMarshaller.GetValueFromObject | ext/marshaller.c:17-59 | the loop returns the object found, the default when a lookup fails, and `None` for a key that is neither an exact int nor an exact str |
| ExtMarshaller.WalkAppend | ext/marshaller.c:39-54 | walking `a + b` is walking `a`, then `b` from where `a` ended |
| ExtMarshaller.WalkStopsAtFailure | ext/marshaller.c:42-50 | a segment on which both accesses fail ends the walk with the default, whatever follows |
| ExtMarshaller.WalkLastSegment | ext/marshaller.c:39-54 | the last segment is resolved against the object all earlier segments reached |
| ExtMarshaller.WalkStaysLive | ext/marshaller.c:39-54 | a successful walk from a live object ends on a live object |
| ExtMarshaller.IntKeyIgnoresAttributes | ext/marshaller.c:21-30 | an int key is looked up as an item only; attributes never matter, and a missing item gives the default |
| ExtMarshaller.UnsupportedKeyIsNone | ext/marshaller.c:57-58 | any other key type resolves to `None`, never to a fresh default |
| ExtMarshaller.ResolveDefaultIffAbsent | ext/marshaller.c:17-59 | with a default that is no live object, the default comes back exactly when the lookup fails |
| ExtMarshaller.AllocKeepsWalk | ext/marshaller.c:65-67 | allocating a new dict changes no walk from a live object |
| ExtMarshaller.AllocKeepsLookup | ext/marshaller.c:65-67 | allocating a new dict changes no key lookup from a live object |
| ExtMarshaller.AllocKeepsValid | ext/marshaller.c:65-67 | a new object at the first unused reference, referring only to live objects, keeps every reference live and below the next one |
| ExtMarshaller.MarshalFields | ext/marshaller.c:76-89 | the result has at most one entry per field, and exactly one per field when no field's `_serialize` raises |
| ExtMarshaller.MarshalOneSpec | ext/marshaller.c:62-92 | with the sentinel allocated first, at most one entry per field, and one per field when every `_serialize` succeeds against that sentinel |
| ExtMarshaller.MarshalFieldsContents | ext/marshaller.c:76-89 | the result maps a key to a value exactly when some field with that key serialized to that value |
| ExtMarshaller.MarshalFieldsKeys | ext/marshaller.c:76-89 | every result key is a field's key, no key repeats, and the result is no longer than the fields dict |
| ExtMarshaller.AbsentFieldGetsSentinel | ext/marshaller.c:65-78 | a field's `_serialize` receives the call's own sentinel exactly when its key names nothing on the object |
| ExtMarshaller.MarshalOne | ext/marshaller.c:62-92 | allocates one dict (the sentinel) and returns the dict of the serialized fields, in order |
| ExtMarshaller.Marshal | ext/marshaller.c:99-132 | one dict for one object, or a list with one dict per object; the errors dict is always empty |
| ExtMarshaller.MarshalMany | ext/marshaller.c:115-127 | slot `i` of the list is `marshal_one` of object `i` on the heap after `i` earlier calls |
| MarshalTypes.Get | marshmallow/marshalling.py:277 | `d.get(k)` finds a value exactly when some entry has key `k`, and the value is that entry's |
| MarshalTypes.GetOrMissing | marshmallow/marshalling.py:277 | `d.get(k, missing)` is the value stored under `k` when there is one, and `missing` when no entry has key `k` |
| MarshalTypes.SetItem | marshmallow/marshalling.py:301 | `d[k] = v` keeps keys distinct, makes `k` map to `v` and leaves every other key alone |
| MarshalTypes.DictOf | marshmallow/marshalling.py:301 | `dict(items)` has distinct keys |
| MarshalTypes.DictOfGet | marshmallow/marshalling.py:301 | in `dict(items)` a key holds the last value paired with it |
| MarshalTypes.DictOfDistinct | marshmallow/marshalling.py:179 | pairs with distinct keys make a dict that keeps all of them, in order |
| MarshalTypes.FieldNamed | marshmallow/marshalling.py:210 | `fields_dict[name]` is found exactly when some field has that name, and what it finds is the field stored with the first occurrence of that name |
| MarshalTypes.DictConversionError | marshmallow/marshalling.py:203-205 | `dict(output)` succeeds on a dict and raises `TypeError` on `None`; a list converts only when every element is a pair with a hashable key |
| MarshalTypes.PairError | marshmallow/marshalling.py:204 | one element is accepted exactly when it is a two-item iterable whose key is hashable; otherwise `TypeError` (not iterable, or a list or dict as key) or `ValueError` (wrong length) |
| MarshalTypes.PairsError | marshmallow/marshalling.py:204 | a sequence converts to a dict exactly when every element is a pair; otherwise the error is the one the first failing element raises |
| MarshalTypes.AsList | marshmallow/marshalling.py:145-153 | the list comprehension's outcome: the list of results when no element raised, otherwise the exception unchanged |
| ErrorStores.ExtendEntry | marshmallow/marshalling.py:95 | `setdefault(k, []).extend(items)` fails exactly on an entry that is not a list; otherwise the items follow what was there, and other keys are unchanged |
| ErrorStores.StoreMessages | marshmallow/marshalling.py:86-95 | only the field's own slot changes (its name, or its element's index entry, which then exists); dict messages replace the entry, list messages extend it; filing fails exactly on a non-list entry, and then changes nothing in the bucket |
| ErrorStores.CallAndStoreSpec | marshmallow/marshalling.py:81-96 | a value and a non-validation exception pass through with no change to the bookkeeping; a `ValidationError` appends the field and name, files the messages and yields `None` |
| ErrorStores.CallAndStoreTouchesOneSlot | marshmallow/marshalling.py:86-95 | a call changes no top-level errors entry other than its own slot |
| ErrorStores.ElementIndex | marshmallow/marshalling.py:163 | the index passed to `call_and_store` is the element's position exactly when `index_errors` is set, and `None` otherwise |
| ErrorStores.ErrorStore.constructor | marshmallow/marshalling.py:54-62 | a new store has no errors, no failing fields or names, and `_pending` unset |
| ErrorStores.ErrorStore.ResetErrors | marshmallow/marshalling.py:64-67 | empties the errors and both lists, and leaves `_pending` alone |
| ErrorStores.ErrorStore.CallAndStore | marshmallow/marshalling.py:69-96 | the returned value and the new bookkeeping are those of `CallAndStoreSpec` on the getter's outcome |
| Serializing.FieldStep | marshmallow/marshalling.py:155-172 | one field raises only when its own `serialize` raised; otherwise it appends at most one pair, keyed by the prefix plus the field's name, and adds at most that key to the error names |
| Serializing.Skipped | marshmallow/marshalling.py:165-170 | a `load_only` field and a `missing` value are always skipped; without `skip_missing` those are the only reasons |
| Serializing.ElementStep | marshmallow/marshalling.py:147-151 | one more element keeps the earlier results and adds exactly one result, or ends the list with an exception |
| Serializing.SerializeFields | marshmallow/marshalling.py:154-172 | the loop emits at most one pair per field and adds at most one error name per field |
| Serializing.SerializeOneSpec | marshmallow/marshalling.py:154-179 | a single object serializes to a dict, and under `strict` only when no error was recorded |
| Serializing.SerializeManySpec | marshmallow/marshalling.py:143-151 | a collection that serializes has one result per element |
| Serializing.SerializeFieldsRaiseIsFinal | marshmallow/marshalling.py:154-172 | once a field raises, later fields change neither the result nor the bookkeeping |
| Serializing.SerializeManyRaiseIsFinal | marshmallow/marshalling.py:145-151 | once an element raises, later elements change nothing |
| Serializing.SerializeFieldsOutput | marshmallow/marshalling.py:154-172 | a field loop that ends normally yields exactly the emitted pairs, whatever errors were recorded |
| Serializing.EmittedContents | marshmallow/marshalling.py:163-171 | a pair is emitted exactly when some field produced that value under its prefixed name and none of the three skip conditions holds |
| Serializing.EmittedKeys | marshmallow/marshalling.py:156-171 | with distinct field names the emitted keys are distinct, and each is the prefix plus a field's name |
| Serializing.SerializeFieldsWithoutErrors | marshmallow/marshalling.py:155-171 | when no field raises, the bookkeeping is unchanged and the output is the emitted pairs |
| Serializing.FieldStepKeepsOtherSlots | marshmallow/marshalling.py:158-164 | one field changes no per-element entry but its own element's; without an index it changes no per-element entry at all |
| Serializing.SerializeFieldsKeepsOtherSlots | marshmallow/marshalling.py:155-172 | the field loop changes no per-element entry but its own element's; without an index (`index_errors` false) it changes no per-element entry at all |
| Serializing.SerializeOneKeepsOtherElements | marshmallow/marshalling.py:154-179 | serializing one object leaves the entry of every other element index as it was |
| Serializing.SerializeOneResult | marshmallow/marshalling.py:173-179 | the result is the dict of the emitted pairs, unless `strict` is set and errors exist; then it raises `ValidationError` with the errors, names and fields |
| Serializing.SerializeManyElement | marshmallow/marshalling.py:145-151 | element `i` of a collection's result is element `i` serialized alone, with index `i`, from the bookkeeping left by the elements before it |
| Serializing.SerializeManyErrorsPerElement | marshmallow/marshalling.py:145-151 | whether or not `index_errors` is set, no later element changes element `j`'s entry |
| Serializing.SerializeManyLastKeepsEarlier | marshmallow/marshalling.py:147-151 | the last element of the comprehension leaves every earlier element's entry as it was |
| Serializing.Marshaller.constructor | marshmallow/marshalling.py:115-117 | keeps the prefix and starts with an empty store |
| Serializing.Marshaller.Serialize | marshmallow/marshalling.py:119-179 | resets unless `_pending`; in many mode the list of per-element results, with `_pending` left set exactly when an element raised; otherwise the single-object result |
| Serializing.Marshaller.SerializeMany | marshmallow/marshalling.py:145-153 | sets `_pending`, serializes the elements, and clears `_pending` again only when no element raised; the result and bookkeeping are `SerializeManySpec`'s |
| Serializing.Marshaller.SerializeElements | marshmallow/marshalling.py:147-151 | each element serialized in turn, with its position as index, sharing one bookkeeping and leaving `_pending` alone |
| Serializing.Marshaller.SerializeObject | marshmallow/marshalling.py:154-179 | the field loop, then the strict check, then the output dict |
| Serializing.Marshaller.SerializeItems | marshmallow/marshalling.py:154-172 | the loop over the fields dict, specified by `SerializeFields` |
| Serializing.Marshaller.SerializeEntry | marshmallow/marshalling.py:155-171 | one field: the value through `call_and_store`, kept unless skipped |
| Deserializing.ValidatorOutcome | marshmallow/marshalling.py:197-205 | a validator's `False` never passes: when `dict(output)` fails it raises that `TypeError` or `ValueError`, otherwise a `ValidationError` without field names |
| Deserializing.FieldsFor | marshmallow/marshalling.py:210 | the field objects are found exactly when every name is in the fields dict, in the same order |
| Deserializing.RecordSchemaError | marshmallow/marshalling.py:215-224 | only that name's entry changes. List messages go under `_schema` inside a nested dict entry, and otherwise extend the list. A dict of messages is appended as one item. Filing fails exactly when the entry exists and is not a list (for list messages into a dict entry: its `_schema` exists and is not a list) |
| Deserializing.FilingFails | marshmallow/marshalling.py:215-224 | filing fails only on an entry that is not a list |
| Deserializing.RecordSchemaErrorLocal | marshmallow/marshalling.py:215-224 | whether filing under a name succeeds, and what that name's entry becomes, depend on that name's entry only |
| Deserializing.FileUnder | marshmallow/marshalling.py:214-226 | when every name is filed, every name has an entry |
| Deserializing.FileStep | marshmallow/marshalling.py:215-224 | one name succeeds exactly when `RecordSchemaError` does, and the errors dict is then its result, otherwise unchanged |
| Deserializing.FileUnderDistinct | marshmallow/marshalling.py:214-224 | with distinct names, the loop gets through exactly when each name could be filed under on its own, and each name's entry is then what filing under it alone makes of it |
| Deserializing.FileUnderKeepsOthers | marshmallow/marshalling.py:214-224 | filing a validator's messages touches only the given names' entries, and never a per-element entry |
| Deserializing.OutputKey | marshmallow/marshalling.py:275 | the output key is the field's `attribute` when it is set, and the field's name otherwise |
| Deserializing.NotADict | marshmallow/marshalling.py:278-284 | the error raised for data without `get` carries one message, the field's name and the field object |
| Deserializing.RawValue | marshmallow/marshalling.py:277-289 | the input under the field's name wins when present; the raw value is `missing` exactly when neither the name nor `load_from` finds input and the field has no `missing` default |
| Deserializing.LoadStep | marshmallow/marshalling.py:273-300 | a dump-only field changes nothing; otherwise at most one pair is appended, keyed by `OutputKey`, and at most that key is added to the error names |
| Deserializing.DeserializeFields | marshmallow/marshalling.py:271-300 | the loop loads at most one pair per field and adds at most one error name per field |
| Deserializing.LoadSpec | marshmallow/marshalling.py:269-303 | `None` data loads `None` with the bookkeeping unchanged; other data that loads gives a dict |
| Deserializing.DeserializeOneSpec | marshmallow/marshalling.py:269-323 | a single item that deserializes under `strict` leaves no error recorded |
| Deserializing.ValidatorStep | marshmallow/marshalling.py:194-232 | one validator leaves the output and both error lists unchanged, and never touches a per-element entry (what its `ValidationError` does is `ValidationErrorFiled`) |
| Deserializing.ValidationErrorFiled | marshmallow/marshalling.py:206-232 | a `ValidationError` with distinct field names: an unknown name is a `KeyError` that changes nothing; otherwise each name's entry becomes what filing under it alone makes of it, no other entry changes, and under `strict` the error is raised again with the errors dict, the names and their field objects; filing that fails is an `AttributeError` |
| Deserializing.ValidateSpec | marshmallow/marshalling.py:191-233 | `_validate` returns its output unchanged and never changes the failing fields or names |
| Deserializing.DeserializeManySpec | marshmallow/marshalling.py:260-268 | a collection that deserializes has one result per item |
| Deserializing.ItemStep | marshmallow/marshalling.py:262-266 | one more item keeps the earlier results and adds exactly one result, or ends the list with an exception |
| Deserializing.Apply | marshmallow/marshalling.py:305-308 | no processors leave the value alone; one processor is applied once |
| Deserializing.ApplyAppend | marshmallow/marshalling.py:305-322 | running two lists of processors one after the other is running their concatenation |
| Deserializing.DeserializeFieldsRaiseIsFinal | marshmallow/marshalling.py:272-300 | once a field raises, later fields change nothing |
| Deserializing.FileUnderFailureIsFinal | marshmallow/marshalling.py:214-224 | once filing fails, later names change nothing |
| Deserializing.ValidateRaiseIsFinal | marshmallow/marshalling.py:194-232 | once a validator raises, later validators change nothing |
| Deserializing.DeserializeManyRaiseIsFinal | marshmallow/marshalling.py:260-268 | once an item raises, later items change nothing |
| Deserializing.DeserializeFieldsOutput | marshmallow/marshalling.py:270-301 | a field loop over a dict that ends normally yields exactly the loaded pairs |
| Deserializing.DeserializeFieldsWithoutErrors | marshmallow/marshalling.py:272-300 | when every field that is read deserializes normally, the bookkeeping is left exactly as it was and the output is the loaded pairs |
| Deserializing.LoadedContents | marshmallow/marshalling.py:272-300 | a pair is loaded exactly when a field is not dump-only and has a raw input (by name, by `load_from`, or by default); the key is its `attribute` or name |
| Deserializing.NonDictData | marshmallow/marshalling.py:273-284 | data without `get` raises "Data must be a dict" for the first field that is not dump-only, recording nothing; with only dump-only fields nothing is raised |
| Deserializing.FalseValidatorRecordsSchema | marshmallow/marshalling.py:201-222 | a validator returning `False` on output that `dict()` converts adds its message after what `_schema` held, and raises only when strict |
| Deserializing.FalseValidatorNeedsDict | marshmallow/marshalling.py:201-206 | a validator returning `False` on output that `dict()` cannot convert raises that conversion error, which the except clause does not catch; nothing is recorded |
| Deserializing.NoneDataFalseValidator | marshmallow/marshalling.py:302-312 | `None` data with a validator returning `False` raises `TypeError` from `dict(None)` and records nothing |
| Deserializing.ValidateKeepsItemErrors | marshmallow/marshalling.py:191-233 | schema validation changes no per-element entry and neither error list |
| Deserializing.NoneDataLoadsNothing | marshmallow/marshalling.py:269-323 | `None` data reads no field; the result is what the processors and validators make of `None` |
| Deserializing.NoInput | marshmallow/marshalling.py:285-300 | a field with no input is skipped unless it is required; a required one still goes through `call_and_store`, so its `ValidationError` records the key and field, and no pair is appended |
| Deserializing.DeserializeFieldsKeepsOtherSlots | marshmallow/marshalling.py:272-300 | the field loop changes no per-element entry but its own item's; without an index it changes no per-element entry at all |
| Deserializing.DeserializeOneKeepsOtherItems | marshmallow/marshalling.py:269-323 | deserializing one item leaves the entry of every other item index as it was |
| Deserializing.DeserializeManyErrorsPerElement | marshmallow/marshalling.py:260-268 | whether or not `index_errors` is set, no later item changes item `j`'s entry |
| Deserializing.DeserializeOneResult | marshmallow/marshalling.py:269-323 | for dict data: a loading exception is the result; otherwise the dict of the loaded pairs, pre-processed, goes through the validators, and a validation that passes gives the strict `ValidationError` or the post-processed output |
| Deserializing.DeserializeManyElement | marshmallow/marshalling.py:260-268 | item `i` of a collection's result is item `i` deserialized alone, with index `i`, from the bookkeeping left by the items before it |
| Deserializing.Unmarshaller.constructor | marshmallow/marshalling.py:185 | starts with an empty store |
| Deserializing.Unmarshaller.Deserialize | marshmallow/marshalling.py:235-323 | resets unless `_pending`; in many mode the list of per-item results, with `_pending` left set exactly when an item raised; otherwise the single-item result |
| Deserializing.Unmarshaller.DeserializeMany | marshmallow/marshalling.py:260-268 | sets `_pending`, deserializes the items, and clears `_pending` again only when no item raised; the result and bookkeeping are `DeserializeManySpec`'s |
| Deserializing.Unmarshaller.DeserializeItems | marshmallow/marshalling.py:262-266 | each item deserialized in turn, with its position as index, sharing one bookkeeping and leaving `_pending` alone |
| Deserializing.Unmarshaller.DeserializeItem | marshmallow/marshalling.py:269-323 | load, pre-process, validate, strict check, post-process, as `DeserializeOneSpec` |
| Deserializing.Unmarshaller.LoadItem | marshmallow/marshalling.py:269-303 | `None` for no data; otherwise the dict of the pairs the field loop loaded, as `LoadSpec` |
| Deserializing.Unmarshaller.LoadFields | marshmallow/marshalling.py:271-300 | the loop over the fields dict, specified by `DeserializeFields` |
| Deserializing.Unmarshaller.LoadEntry | marshmallow/marshalling.py:273-300 | one field: skip dump-only fields, find the raw input, run `deserialize` through `call_and_store`, and keep the value only when there was input |
| Deserializing.Unmarshaller.ApplyAll | marshmallow/marshalling.py:305-322 | the processors applied one after another |
| Deserializing.Unmarshaller.Validate | marshmallow/marshalling.py:191-233 | the validators in order, specified by `ValidateSpec` |
| Deserializing.Unmarshaller.RunValidator | marshmallow/marshalling.py:194-232 | one validator with its except clause, as `ValidatorStep` |
| Deserializing.Unmarshaller.RecordSchemaErrors | marshmallow/marshalling.py:214-226 | the messages filed under each name in turn, stopping at the first failure |
| Deserializing.Unmarshaller.FileMessages | marshmallow/marshalling.py:215-224 | the messages filed under one name, as `RecordSchemaError` |

## Left out

- CPython plumbing is not modelled: reference counts, the `PyArg_ParseTuple` failure, and the NULL results of allocation calls.
- The debug write to stdout when `_serialize` raises the validation error class is left out. It has no effect on the result.
- ExtMarshaller.Marshal: the output dicts and the list are values, not objects on the heap. Only the sentinel dicts are allocated. The sentinel's attributes are taken to be empty.
- ExtMarshaller.MarshalFields and ExtMarshaller.MarshalOne: a `_serialize` call that raises leaves its exception set, because `marshal_one` never calls `PyErr_Clear` (ext/marshaller.c:83-88). CPython would then fail the next call made with an exception set, or report `SystemError` when `marshal` returns a value with an exception set. The model treats every failed call as cleared: the field is dropped and marshalling goes on.
- ExtMarshaller.MarshalMany: `PyList_Size` and `PyList_GetItem` on something other than a list are not modelled; the input is a sequence of objects.
- ExtMarshaller.Step: segments are str keys and attribute names only. Objects with custom `__getitem__` or `__getattr__` are reduced to these two tables.
- The `TypeError` branch of `call_and_store` (marshalling.py:97-106) only rewrites the message of an exception that propagates anyway. Here it is one more exception that propagates.
- `ValidationError`'s own normalisation is not modelled: `exceptions.py` is not part of this model. Messages are always a list or a dict, so the `text_type(err)` branch (marshalling.py:225-226) is not reached.
- MarshalTypes.DictConversionError: objects are taken to be neither mappings nor iterables of pairs, so `dict()` of any other value raises `TypeError`; a string converts only when empty. Among the modelled values only lists and dicts are unhashable.
- Deserializing.ValidatorOutcome: the message reads `Schema validator <name>(...) is False`. The model does not print the repr of `dict(output)`.
- Validator arity (`get_func_args`) is not modelled. Every validator receives the output and the raw data, and a one-argument validator ignores the second.
- A callable `missing` default (marshalling.py:289) is not called. The model uses the default value itself.
- `dict_class` is always `dict`.
- The order of the errors dict is not modelled. It is a map.
- Field `serialize`/`deserialize`, `SKIPPABLE_VALUES`, accessors and the pre- and post-processors are pure functions. Their side effects are left out, and so are exceptions raised by processors.
- `many` mode takes a list. Other iterables passed to `enumerate` are not modelled.
- Data objects other than dicts that have a `get` method are not modelled. Every non-dict value raises "Data must be a dict".
- Everything else in the repository is not part of this model: schemas, fields, validators, utils.
