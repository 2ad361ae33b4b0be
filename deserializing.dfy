/**
 * `Unmarshaller.deserialize` and `_validate`: a dict (or a list of them with
 * `many`) loaded field by field, then pre-processed, checked by the
 * schema-level validators and post-processed, with validation errors
 * collected in the store.
 */
module Deserializing {
  import opened MarshalTypes
  import opened ErrorStores

  // ---------------------------------------------------------------------
  // The field loop
  // ---------------------------------------------------------------------

  /** The key a field is loaded under: its `attribute`, or its name. */
  function OutputKey(name: string, f: Field): (r: string)
    ensures r == name || r == f.attribute
    ensures f.attribute != "" ==> r == f.attribute
  {
    if f.attribute != "" then f.attribute else name
  }

  /** The raw input for a field: the entry under its name, else the entry
      under its `load_from` name, else its default when it has one. */
  function RawValue(data: seq<(string, Value)>, name: string, f: Field): (r: Value)
    ensures GetOrMissing(data, name) != Missing ==> r == GetOrMissing(data, name)
    ensures r == Missing <==> && GetOrMissing(data, name) == Missing
                              && (f.loadFrom == "" || GetOrMissing(data, f.loadFrom) == Missing)
                              && (f.missing == Null || f.missing == Missing)
  {
    var byName := GetOrMissing(data, name);
    var byLoadFrom := if byName == Missing && f.loadFrom != "" then GetOrMissing(data, f.loadFrom) else byName;
    if byLoadFrom == Missing && f.missing != Null then f.missing else byLoadFrom
  }

  /** The `ValidationError` raised when the data has no `get`. */
  function NotADict(data: Value, name: string, f: Field): (e: Exception)
    ensures e.Validation? && e.err.fieldNames == [name] && e.err.fields == [f]
    ensures e.err.messages.ListMessages? && |e.err.messages.items| == 1
  {
    Validation(ValidationError(ListMessages([Text("Data must be a dict, got a " + TypeName(data))]), [name], [f]))
  }

  /** One turn of the field loop of `deserialize`, after the pairs `done`. */
  function LoadStep(done: seq<(string, Value)>, st: StoreState, data: Value, entry: (string, Field), index: Option<int>)
    : (r: (Outcome<seq<(string, Value)>>, StoreState))
    requires WellFormed(st.errors)
    ensures WellFormed(r.1.errors)
    ensures entry.1.dumpOnly ==> r == (Ok(done), st)
    ensures r.0.Ok? ==> done <= r.0.value && |r.0.value| <= |done| + 1
    ensures r.0.Ok? && |r.0.value| > |done| ==> r.0.value[|done|].0 == OutputKey(entry.0, entry.1)
    ensures r.1.errorFieldNames == st.errorFieldNames || r.1.errorFieldNames == st.errorFieldNames + [OutputKey(entry.0, entry.1)]
  {
    var (name, f) := entry;
    if f.dumpOnly then (Ok(done), st)
    else if !data.Dict? then (Raise(NotADict(data, name, f)), st)
    else
      var raw := RawValue(data.entries, name, f);
      if raw == Missing && !f.required then (Ok(done), st)
      else
        var key := OutputKey(name, f);
        var (got, st') := CallAndStoreSpec(st, f.deserialize(raw), key, f, index);
        if got.Raise? then (Raise(got.exc), st')
        else if raw == Missing then (Ok(done), st')
        else (Ok(done + [(key, got.value)]), st')
  }

  /** The field loop of `deserialize`: the pairs loaded, or the exception
      that ended the loop, and the store's bookkeeping after it. */
  function DeserializeFields(st: StoreState, data: Value, fields: FieldsDict, index: Option<int>)
    : (r: (Outcome<seq<(string, Value)>>, StoreState))
    requires WellFormed(st.errors)
    ensures WellFormed(r.1.errors)
    ensures r.0.Ok? ==> |r.0.value| <= |fields|
    ensures |st.errorFieldNames| <= |r.1.errorFieldNames| <= |st.errorFieldNames| + |fields|
    decreases |fields|
  {
    if fields == [] then (Ok([]), st)
    else
      var (done, st1) := DeserializeFields(st, data, fields[..|fields| - 1], index);
      if done.Raise? then (done, st1)
      else LoadStep(done.value, st1, data, fields[|fields| - 1], index)
  }

  /** The dict loaded from `data`, or `None` for no data. */
  function LoadSpec(st: StoreState, data: Value, fields: FieldsDict, index: Option<int>)
    : (r: (Outcome<Value>, StoreState))
    requires WellFormed(st.errors)
    ensures WellFormed(r.1.errors)
    ensures data == PyNone ==> r == (Ok(PyNone), st)
    ensures data != PyNone && r.0.Ok? ==> r.0.value.Dict?
  {
    if data == PyNone then (Ok(PyNone), st)
    else
      var (items, st1) := DeserializeFields(st, data, fields, index);
      if items.Raise? then (Raise(items.exc), st1) else (Ok(Dict(DictOf(items.value))), st1)
  }

  /** The value `call_and_store` hands back for a field's raw input. */
  function LoadedValue(f: Field, raw: Value): Value {
    match f.deserialize(raw)
    case Ok(v) => v
    case Raise(_) => PyNone
  }

  /** The loaded pairs, in the fields dict's order, leaving the error
      bookkeeping aside: every field that is not dump-only and has a raw
      input. */
  function Loaded(data: seq<(string, Value)>, fields: FieldsDict): seq<(string, Value)>
    decreases |fields|
  {
    if fields == [] then []
    else
      var done := Loaded(data, fields[..|fields| - 1]);
      var (name, f) := fields[|fields| - 1];
      var raw := RawValue(data, name, f);
      if f.dumpOnly || raw == Missing then done else done + [(OutputKey(name, f), LoadedValue(f, raw))]
  }

  // ---------------------------------------------------------------------
  // Schema-level validation
  // ---------------------------------------------------------------------

  /** What a validator yields: a `False` result is turned into a
      `ValidationError` naming the validator, unless building its message
      fails because `dict(output)` raises. */
  function ValidatorOutcome(v: Validator, output: Value, raw: Value): (r: Outcome<Value>)
    ensures r.Ok? ==> r == v.run(output, raw) && r.value != Bool(false)
    ensures v.run(output, raw) == Ok(Bool(false)) && DictConversionError(output).Some? ==>
              r == Raise(Other(DictConversionError(output).value))
    ensures v.run(output, raw) == Ok(Bool(false)) && DictConversionError(output).None? ==>
              r.Raise? && r.exc.Validation? && r.exc.err.fieldNames == []
  {
    var res := v.run(output, raw);
    if res.Ok? && res.value == Bool(false) then
      match DictConversionError(output)
      case Some(e) => Raise(Other(e))
      case None => Raise(Validation(ValidationError(ListMessages([Text(FalseMessage(v.name))]), [], [])))
    else res
  }

  /** `[fields_dict[each] for each in names]`, or `None` for the `KeyError`. */
  function FieldsFor(fields: FieldsDict, names: seq<string>): (r: Option<seq<Field>>)
    ensures r.Some? <==> forall i | 0 <= i < |names| :: FieldNamed(fields, names[i]).Some?
    ensures r.Some? ==> |r.value| == |names| && forall i | 0 <= i < |names| :: FieldNamed(fields, names[i]) == Some(r.value[i])
    decreases |names|
  {
    if names == [] then Some([])
    else
      match FieldNamed(fields, names[0])
      case None => None
      case Some(f) =>
        var rest := FieldsFor(fields, names[1..]);
        assert forall i | 1 <= i < |names| :: names[1..][i - 1] == names[i];
        if rest.None? then None else Some([f] + rest.value)
  }

  /** How `_validate` files a validator's messages under `name` in the
      errors dict; `None` for the `AttributeError` of an entry that cannot
      be extended. List messages go under the `_schema` key of a nested
      schema's dict; a dict of messages is appended as one item. */
  function RecordSchemaError(errors: map<ErrKey, ErrVal>, name: string, messages: Messages)
    : (r: Option<map<ErrKey, ErrVal>>)
    ensures r.None? <==> Name(name) in errors && FilingFails(errors[Name(name)], messages)
    ensures r.Some? ==> Name(name) in r.value && forall k | k != Name(name) :: SameAt(errors, r.value, k)
    ensures r.Some? && messages.DictMessages? ==>
              r.value[Name(name)] == MsgList(Prior(errors, Name(name)) + [MsgDict(messages.entries)])
    ensures r.Some? && messages.ListMessages? && Name(name) in errors && errors[Name(name)].MsgDict? ==>
              var nested := errors[Name(name)].entries;
              r.value[Name(name)] == MsgDict(nested[Name("_schema") := MsgList(Prior(nested, Name("_schema")) + messages.items)])
    ensures r.Some? && messages.ListMessages? && !(Name(name) in errors && errors[Name(name)].MsgDict?) ==>
              r.value[Name(name)] == MsgList(Prior(errors, Name(name)) + messages.items)
  {
    var key := Name(name);
    match messages
    case ListMessages(items) =>
      if key in errors && errors[key].MsgDict? then
        match ExtendEntry(errors[key].entries, Name("_schema"), items)
        case None => None
        case Some(nested) => Some(errors[key := MsgDict(nested)])
      else ExtendEntry(errors, key, items)
    case DictMessages(m) => ExtendEntry(errors, key, [MsgDict(m)])
  }

  /** The entries `_validate` cannot file messages under: `append` and
      `extend` need a list, and list messages go under the `_schema` key of
      a nested dict. */
  predicate FilingFails(entry: ErrVal, messages: Messages)
    ensures FilingFails(entry, messages) ==> !entry.MsgList?
  {
    match messages
    case DictMessages(_) => !entry.MsgList?
    case ListMessages(_) =>
      if entry.MsgDict? then Name("_schema") in entry.entries && !entry.entries[Name("_schema")].MsgList?
      else !entry.MsgList?
  }

  /** The loop of `_validate` over the field names of one error: the errors
      dict it leaves, and whether it got through every name. */
  function FileUnder(errors: map<ErrKey, ErrVal>, names: seq<string>, messages: Messages)
    : (r: (map<ErrKey, ErrVal>, bool))
    ensures r.1 ==> forall i | 0 <= i < |names| :: Name(names[i]) in r.0
    decreases |names|
  {
    if names == [] then (errors, true)
    else
      var n := |names| - 1;
      var (done, ok) := FileUnder(errors, names[..n], messages);
      if !ok then (done, false) else FileStep(done, names[n], messages)
  }

  /** One turn of that loop: the errors dict after filing under `name`, and
      whether that succeeded. */
  function FileStep(errors: map<ErrKey, ErrVal>, name: string, messages: Messages): (r: (map<ErrKey, ErrVal>, bool))
    ensures r.1 <==> RecordSchemaError(errors, name, messages).Some?
    ensures r.0 == if r.1 then RecordSchemaError(errors, name, messages).value else errors
  {
    match RecordSchemaError(errors, name, messages)
    case None => (errors, false)
    case Some(next) => (next, true)
  }

  /** Filing touches the entries of the given names only: never another
      name, nor a per-item entry. */
  lemma {:induction false} FileUnderKeepsOthers(errors: map<ErrKey, ErrVal>, names: seq<string>, messages: Messages)
    ensures forall k: ErrKey {:trigger SameAt(errors, FileUnder(errors, names, messages).0, k)} | !(k.Name? && k.name in names) ::
              SameAt(errors, FileUnder(errors, names, messages).0, k)
    ensures WellFormed(errors) ==> WellFormed(FileUnder(errors, names, messages).0)
    decreases |names|
  {
    if names != [] {
      var n := |names| - 1;
      FileUnderKeepsOthers(errors, names[..n], messages);
      var done := FileUnder(errors, names[..n], messages).0;
      var r := FileUnder(errors, names, messages).0;
      forall k: ErrKey | !(k.Name? && k.name in names) ensures SameAt(errors, r, k) {
        assert !(k.Name? && k.name in names[..n]);
        assert SameAt(errors, done, k) && SameAt(done, r, k);
      }
    }
  }

  /** No name occurs twice. */
  ghost predicate DistinctStrings(names: seq<string>) {
    forall i, j | 0 <= i < j < |names| :: names[i] != names[j]
  }

  /** Filing under a name depends on that name's entry only. */
  lemma RecordSchemaErrorLocal(e1: map<ErrKey, ErrVal>, e2: map<ErrKey, ErrVal>, name: string, messages: Messages)
    requires SameAt(e1, e2, Name(name))
    ensures RecordSchemaError(e1, name, messages).Some? <==> RecordSchemaError(e2, name, messages).Some?
    ensures RecordSchemaError(e1, name, messages).Some? ==>
              RecordSchemaError(e1, name, messages).value[Name(name)] == RecordSchemaError(e2, name, messages).value[Name(name)]
  {
    assert Prior(e1, Name(name)) == Prior(e2, Name(name));
  }

  /** Filing under distinct names: it gets through exactly when each name
      could be filed under on its own, and then each name's entry is what
      filing under that name alone makes of it. */
  lemma {:induction false} FileUnderDistinct(errors: map<ErrKey, ErrVal>, names: seq<string>, messages: Messages)
    requires DistinctStrings(names)
    ensures var (r, ok) := FileUnder(errors, names, messages);
            && (ok <==> forall i | 0 <= i < |names| :: RecordSchemaError(errors, names[i], messages).Some?)
            && (ok ==> forall i | 0 <= i < |names| ::
                         && Name(names[i]) in r
                         && r[Name(names[i])] == RecordSchemaError(errors, names[i], messages).value[Name(names[i])])
    decreases |names|
  {
    if names != [] {
      var n := |names| - 1;
      var init := names[..n];
      assert forall i | 0 <= i < n :: init[i] == names[i];
      FileUnderDistinct(errors, init, messages);
      FileUnderKeepsOthers(errors, init, messages);
      var (done, ok) := FileUnder(errors, init, messages);
      assert names[n] !in init;
      RecordSchemaErrorLocal(errors, done, names[n], messages);
      var (r, filed) := FileUnder(errors, names, messages);
      if filed {
        assert r == RecordSchemaError(done, names[n], messages).value;
        forall i | 0 <= i < n
          ensures r[Name(names[i])] == RecordSchemaError(errors, names[i], messages).value[Name(names[i])]
        {
          assert names[i] == init[i] != names[n];
          assert SameAt(done, r, Name(names[i]));
        }
      }
    }
  }

  /** One validator of `_validate`: a pass leaves everything as it was; an
      exception other than `ValidationError` propagates; a
      `ValidationError` is filed under its field names (or `_schema`) and,
      when `strict`, raised again carrying the whole errors dict. */
  function ValidatorStep(st: StoreState, v: Validator, output: Value, raw: Value, fields: FieldsDict, strict: bool)
    : (r: (Outcome<Value>, StoreState))
    requires WellFormed(st.errors)
    ensures WellFormed(r.1.errors)
    ensures r.0.Ok? ==> r.0.value == output
    ensures r.1.errorFields == st.errorFields && r.1.errorFieldNames == st.errorFieldNames
    ensures forall i :: SameAt(st.errors, r.1.errors, Index(i))
  {
    var res := ValidatorOutcome(v, output, raw);
    if res.Ok? then (Ok(output), st)
    else if res.exc.Other? then (res, st)
    else
      var err := res.exc.err;
      var names := if err.fieldNames != [] then err.fieldNames else ["_schema"];
      match FieldsFor(fields, err.fieldNames)
      case None => (Raise(Other("KeyError")), st)
      case Some(objs) =>
        var (errors, filed) := FileUnder(st.errors, names, err.messages);
        FileUnderKeepsOthers(st.errors, names, err.messages);
        var st' := StoreState(errors, st.errorFields, st.errorFieldNames);
        if !filed then (Raise(Other("AttributeError")), st')
        else if strict then (Raise(Validation(ValidationError(DictMessages(errors), names, objs))), st')
        else (Ok(output), st')
  }

  /** `_validate`: the validators in order; the first exception ends it. */
  function ValidateSpec(st: StoreState, validators: seq<Validator>, output: Value, raw: Value, fields: FieldsDict, strict: bool)
    : (r: (Outcome<Value>, StoreState))
    requires WellFormed(st.errors)
    ensures WellFormed(r.1.errors)
    ensures r.0.Ok? ==> r.0.value == output
    ensures r.1.errorFields == st.errorFields && r.1.errorFieldNames == st.errorFieldNames
    decreases |validators|
  {
    if validators == [] then (Ok(output), st)
    else
      var n := |validators| - 1;
      var (done, st1) := ValidateSpec(st, validators[..n], output, raw, fields, strict);
      if done.Raise? then (done, st1) else ValidatorStep(st1, validators[n], output, raw, fields, strict)
  }

  // ---------------------------------------------------------------------
  // deserialize
  // ---------------------------------------------------------------------

  /** The result of running `funcs` one after another on `v`. */
  function Apply(funcs: seq<Value -> Value>, v: Value): (r: Value)
    ensures funcs == [] ==> r == v
    ensures |funcs| == 1 ==> r == funcs[0](v)
    decreases |funcs|
  {
    if funcs == [] then v else funcs[|funcs| - 1](Apply(funcs[..|funcs| - 1], v))
  }

  /** Running `f` and then `g` is running their concatenation. */
  lemma {:induction false} ApplyAppend(f: seq<Value -> Value>, g: seq<Value -> Value>, v: Value)
    ensures Apply(f + g, v) == Apply(g, Apply(f, v))
    decreases |g|
  {
    if g == [] {
      assert f + g == f;
    } else {
      var n := |g| - 1;
      ApplyAppend(f, g[..n], v);
      assert (f + g)[..|f + g| - 1] == f + g[..n];
    }
  }

  /** `deserialize` of one item, from the bookkeeping it starts with. */
  function DeserializeOneSpec(st: StoreState, data: Value, fields: FieldsDict, validators: seq<Validator>,
                              preprocess: seq<Value -> Value>, postprocess: seq<Value -> Value>, strict: bool, index: Option<int>)
    : (r: (Outcome<Value>, StoreState))
    requires WellFormed(st.errors)
    ensures WellFormed(r.1.errors)
    ensures r.0.Ok? && strict ==> |r.1.errors| == 0
  {
    var (loaded, st1) := LoadSpec(st, data, fields, index);
    if loaded.Raise? then (loaded, st1)
    else
      var (checked, st2) := ValidateSpec(st1, validators, Apply(preprocess, loaded.value), data, fields, strict);
      if checked.Raise? then (checked, st2)
      else if st2.errors != map[] && strict then
        (Raise(Validation(ValidationError(DictMessages(st2.errors), st2.errorFieldNames, st2.errorFields))), st2)
      else (Ok(Apply(postprocess, checked.value)), st2)
  }

  /** `deserialize` with `many`: the items in order, each with its own
      index, all sharing one bookkeeping; the first exception ends the list. */
  function DeserializeManySpec(st: StoreState, items: seq<Value>, fields: FieldsDict, validators: seq<Validator>,
                               preprocess: seq<Value -> Value>, postprocess: seq<Value -> Value>, strict: bool, indexErrors: bool)
    : (r: (Outcome<seq<Value>>, StoreState))
    requires WellFormed(st.errors)
    ensures WellFormed(r.1.errors)
    ensures r.0.Ok? ==> |r.0.value| == |items|
    decreases |items|
  {
    if items == [] then (Ok([]), st)
    else
      var n := |items| - 1;
      var (done, st1) := DeserializeManySpec(st, items[..n], fields, validators, preprocess, postprocess, strict, indexErrors);
      if done.Raise? then (done, st1)
      else ItemStep(done.value, st1, items[n], fields, validators, preprocess, postprocess, strict, ElementIndex(indexErrors, n))
  }

  /** One item of many mode, after the results `done`. */
  function ItemStep(done: seq<Value>, st: StoreState, item: Value, fields: FieldsDict, validators: seq<Validator>,
                    preprocess: seq<Value -> Value>, postprocess: seq<Value -> Value>, strict: bool, index: Option<int>)
    : (r: (Outcome<seq<Value>>, StoreState))
    requires WellFormed(st.errors)
    ensures WellFormed(r.1.errors)
    ensures r.0.Ok? ==> done <= r.0.value
    ensures r.0.Ok? ==> |r.0.value| == |done| + 1
  {
    var (one, st') := DeserializeOneSpec(st, item, fields, validators, preprocess, postprocess, strict, index);
    if one.Raise? then (Raise(one.exc), st') else (Ok(done + [one.value]), st')
  }

  // ---------------------------------------------------------------------
  // Unfolding one step, and exceptions being final
  // ---------------------------------------------------------------------

  lemma DeserializeFieldsSnoc(st: StoreState, data: Value, fields: FieldsDict, index: Option<int>, i: nat)
    requires WellFormed(st.errors) && i < |fields|
    requires DeserializeFields(st, data, fields[..i], index).0.Ok?
    ensures var (done, st1) := DeserializeFields(st, data, fields[..i], index);
            DeserializeFields(st, data, fields[..i + 1], index) == LoadStep(done.value, st1, data, fields[i], index)
  {
    assert fields[..i + 1][..i] == fields[..i];
  }

  /** An exception among the earlier fields is the outcome with one more field. */
  lemma DeserializeFieldsRaiseStep(st: StoreState, data: Value, fields: FieldsDict, index: Option<int>)
    requires WellFormed(st.errors) && fields != []
    requires DeserializeFields(st, data, fields[..|fields| - 1], index).0.Raise?
    ensures DeserializeFields(st, data, fields, index) == DeserializeFields(st, data, fields[..|fields| - 1], index)
  {
  }

  lemma {:induction false} DeserializeFieldsRaiseIsFinal(st: StoreState, data: Value, fields: FieldsDict, index: Option<int>, i: nat)
    requires WellFormed(st.errors) && i <= |fields|
    requires DeserializeFields(st, data, fields[..i], index).0.Raise?
    ensures DeserializeFields(st, data, fields, index) == DeserializeFields(st, data, fields[..i], index)
    decreases |fields| - i
  {
    if i < |fields| {
      var n := |fields| - 1;
      var init := fields[..n];
      assert init[..i] == fields[..i];
      DeserializeFieldsRaiseIsFinal(st, data, init, index, i);
      DeserializeFieldsRaiseStep(st, data, fields, index);
      assert DeserializeFields(st, data, init, index) == DeserializeFields(st, data, fields[..i], index);
    } else {
      assert fields[..i] == fields;
    }
  }

  lemma FileUnderSnoc(errors: map<ErrKey, ErrVal>, names: seq<string>, messages: Messages, i: nat)
    requires i < |names| && FileUnder(errors, names[..i], messages).1
    ensures var done := FileUnder(errors, names[..i], messages).0;
            FileUnder(errors, names[..i + 1], messages) == FileStep(done, names[i], messages)
  {
    assert names[..i + 1][..i] == names[..i];
  }

  lemma {:induction false} FileUnderFailureIsFinal(errors: map<ErrKey, ErrVal>, names: seq<string>, messages: Messages, i: nat)
    requires i <= |names| && !FileUnder(errors, names[..i], messages).1
    ensures FileUnder(errors, names, messages) == FileUnder(errors, names[..i], messages)
    decreases |names| - i
  {
    if i < |names| {
      var n := |names| - 1;
      assert names[..n][..i] == names[..i];
      FileUnderFailureIsFinal(errors, names[..n], messages, i);
    } else {
      assert names[..i] == names;
    }
  }

  /** One more name: filing under it either extends the loop or, when it
      failed, is the outcome of the whole loop. */
  lemma FileUnderNext(errors: map<ErrKey, ErrVal>, names: seq<string>, messages: Messages, i: nat,
                      done: map<ErrKey, ErrVal>, next: map<ErrKey, ErrVal>, ok: bool)
    requires i < |names| && FileUnder(errors, names[..i], messages) == (done, true)
    requires (next, ok) == FileStep(done, names[i], messages)
    ensures !ok ==> FileUnder(errors, names, messages) == (next, false)
    ensures ok ==> FileUnder(errors, names[..i + 1], messages) == (next, true)
  {
    FileUnderSnoc(errors, names, messages, i);
    if !ok {
      FileUnderFailureIsFinal(errors, names, messages, i + 1);
    }
  }

  lemma ValidateSnoc(st: StoreState, validators: seq<Validator>, output: Value, raw: Value, fields: FieldsDict, strict: bool, i: nat)
    requires WellFormed(st.errors) && i < |validators|
    requires ValidateSpec(st, validators[..i], output, raw, fields, strict).0.Ok?
    ensures ValidateSpec(st, validators[..i + 1], output, raw, fields, strict)
            == ValidatorStep(ValidateSpec(st, validators[..i], output, raw, fields, strict).1, validators[i], output, raw, fields, strict)
  {
    assert validators[..i + 1][..i] == validators[..i];
  }

  lemma {:induction false} ValidateRaiseIsFinal(st: StoreState, validators: seq<Validator>, output: Value, raw: Value,
                                                fields: FieldsDict, strict: bool, i: nat)
    requires WellFormed(st.errors) && i <= |validators|
    requires ValidateSpec(st, validators[..i], output, raw, fields, strict).0.Raise?
    ensures ValidateSpec(st, validators, output, raw, fields, strict) == ValidateSpec(st, validators[..i], output, raw, fields, strict)
    decreases |validators| - i
  {
    if i < |validators| {
      var n := |validators| - 1;
      assert validators[..n][..i] == validators[..i];
      ValidateRaiseIsFinal(st, validators[..n], output, raw, fields, strict, i);
    } else {
      assert validators[..i] == validators;
    }
  }

  lemma DeserializeManySnoc(st: StoreState, items: seq<Value>, fields: FieldsDict, validators: seq<Validator>,
                            preprocess: seq<Value -> Value>, postprocess: seq<Value -> Value>, strict: bool, indexErrors: bool, i: nat)
    requires WellFormed(st.errors) && i < |items|
    requires DeserializeManySpec(st, items[..i], fields, validators, preprocess, postprocess, strict, indexErrors).0.Ok?
    ensures var (done, st1) := DeserializeManySpec(st, items[..i], fields, validators, preprocess, postprocess, strict, indexErrors);
            DeserializeManySpec(st, items[..i + 1], fields, validators, preprocess, postprocess, strict, indexErrors)
            == ItemStep(done.value, st1, items[i], fields, validators, preprocess, postprocess, strict, ElementIndex(indexErrors, i))
  {
    assert items[..i + 1][..i] == items[..i];
  }

  /** An exception among the earlier items is the outcome with one more item. */
  lemma DeserializeManyRaiseStep(st: StoreState, items: seq<Value>, fields: FieldsDict, validators: seq<Validator>,
                                 preprocess: seq<Value -> Value>, postprocess: seq<Value -> Value>,
                                 strict: bool, indexErrors: bool)
    requires WellFormed(st.errors) && items != []
    requires DeserializeManySpec(st, items[..|items| - 1], fields, validators, preprocess, postprocess, strict, indexErrors).0.Raise?
    ensures DeserializeManySpec(st, items, fields, validators, preprocess, postprocess, strict, indexErrors)
            == DeserializeManySpec(st, items[..|items| - 1], fields, validators, preprocess, postprocess, strict, indexErrors)
  {
  }

  lemma {:induction false} DeserializeManyRaiseIsFinal(st: StoreState, items: seq<Value>, fields: FieldsDict, validators: seq<Validator>,
                                                       preprocess: seq<Value -> Value>, postprocess: seq<Value -> Value>,
                                                       strict: bool, indexErrors: bool, i: nat)
    requires WellFormed(st.errors) && i <= |items|
    requires DeserializeManySpec(st, items[..i], fields, validators, preprocess, postprocess, strict, indexErrors).0.Raise?
    ensures DeserializeManySpec(st, items, fields, validators, preprocess, postprocess, strict, indexErrors)
            == DeserializeManySpec(st, items[..i], fields, validators, preprocess, postprocess, strict, indexErrors)
    decreases |items| - i
  {
    if i < |items| {
      var n := |items| - 1;
      var init := items[..n];
      assert init[..i] == items[..i];
      DeserializeManyRaiseIsFinal(st, init, fields, validators, preprocess, postprocess, strict, indexErrors, i);
      DeserializeManyRaiseStep(st, items, fields, validators, preprocess, postprocess, strict, indexErrors);
      assert DeserializeManySpec(st, init, fields, validators, preprocess, postprocess, strict, indexErrors)
          == DeserializeManySpec(st, items[..i], fields, validators, preprocess, postprocess, strict, indexErrors);
    } else {
      assert items[..i] == items;
    }
  }

  /** One more field: its outcome either extends the pairs or, when it
      raised, is the outcome of the whole loop. */
  lemma DeserializeFieldsNext(st: StoreState, data: Value, fields: FieldsDict, index: Option<int>, i: nat,
                              done: seq<(string, Value)>, st1: StoreState, next: Outcome<seq<(string, Value)>>, st2: StoreState)
    requires WellFormed(st.errors) && i < |fields|
    requires DeserializeFields(st, data, fields[..i], index) == (Ok(done), st1)
    requires (next, st2) == LoadStep(done, st1, data, fields[i], index)
    ensures next.Raise? ==> DeserializeFields(st, data, fields, index) == (next, st2)
    ensures next.Ok? ==> DeserializeFields(st, data, fields[..i + 1], index) == (next, st2)
  {
    DeserializeFieldsSnoc(st, data, fields, index, i);
    if next.Raise? {
      DeserializeFieldsRaiseIsFinal(st, data, fields, index, i + 1);
    }
  }

  /** One more validator: a raise is the outcome of `_validate`, anything
      else leaves the output for the next one. */
  lemma ValidateNext(st: StoreState, validators: seq<Validator>, output: Value, raw: Value, fields: FieldsDict, strict: bool,
                     i: nat, st1: StoreState, res: Outcome<Value>, st2: StoreState)
    requires WellFormed(st.errors) && i < |validators|
    requires ValidateSpec(st, validators[..i], output, raw, fields, strict) == (Ok(output), st1)
    requires (res, st2) == ValidatorStep(st1, validators[i], output, raw, fields, strict)
    ensures res.Raise? ==> ValidateSpec(st, validators, output, raw, fields, strict) == (res, st2)
    ensures res.Ok? ==> ValidateSpec(st, validators[..i + 1], output, raw, fields, strict) == (Ok(output), st2)
  {
    ValidateSnoc(st, validators, output, raw, fields, strict, i);
    if res.Raise? {
      ValidateRaiseIsFinal(st, validators, output, raw, fields, strict, i + 1);
    }
  }

  /** One more item: its outcome either extends the list or, when it raised,
      is the outcome of the whole list. */
  lemma DeserializeManyNext(st: StoreState, items: seq<Value>, fields: FieldsDict, validators: seq<Validator>,
                            preprocess: seq<Value -> Value>, postprocess: seq<Value -> Value>, strict: bool, indexErrors: bool,
                            i: nat, done: seq<Value>, st1: StoreState, one: Outcome<Value>, st2: StoreState)
    requires WellFormed(st.errors) && i < |items|
    requires DeserializeManySpec(st, items[..i], fields, validators, preprocess, postprocess, strict, indexErrors) == (Ok(done), st1)
    requires (one, st2) == DeserializeOneSpec(st1, items[i], fields, validators, preprocess, postprocess, strict, ElementIndex(indexErrors, i))
    ensures one.Raise? ==> DeserializeManySpec(st, items, fields, validators, preprocess, postprocess, strict, indexErrors) == (Raise(one.exc), st2)
    ensures one.Ok? ==> DeserializeManySpec(st, items[..i + 1], fields, validators, preprocess, postprocess, strict, indexErrors)
                        == (Ok(done + [one.value]), st2)
  {
    DeserializeManySnoc(st, items, fields, validators, preprocess, postprocess, strict, indexErrors, i);
    if one.Raise? {
      DeserializeManyRaiseIsFinal(st, items, fields, validators, preprocess, postprocess, strict, indexErrors, i + 1);
    }
  }

  // ---------------------------------------------------------------------
  // Properties of the specification
  // ---------------------------------------------------------------------

  /** Whatever the error bookkeeping does, a loop over a dict that ends
      without an exception yields exactly the loaded pairs. */
  lemma {:induction false} DeserializeFieldsOutput(st: StoreState, data: Value, fields: FieldsDict, index: Option<int>)
    requires WellFormed(st.errors) && data.Dict?
    ensures var (items, _) := DeserializeFields(st, data, fields, index);
            items.Ok? ==> items.value == Loaded(data.entries, fields)
    decreases |fields|
  {
    if fields != [] {
      DeserializeFieldsOutput(st, data, fields[..|fields| - 1], index);
    }
  }

  /** When every field that is read deserializes its raw input normally,
      the bookkeeping is left exactly as it was and the output is the loaded
      pairs. */
  lemma {:induction false} DeserializeFieldsWithoutErrors(st: StoreState, data: Value, fields: FieldsDict, index: Option<int>)
    requires WellFormed(st.errors) && data.Dict?
    requires forall j | 0 <= j < |fields| && !fields[j].1.dumpOnly
                        && (RawValue(data.entries, fields[j].0, fields[j].1) != Missing || fields[j].1.required) ::
               fields[j].1.deserialize(RawValue(data.entries, fields[j].0, fields[j].1)).Ok?
    ensures DeserializeFields(st, data, fields, index) == (Ok(Loaded(data.entries, fields)), st)
    decreases |fields|
  {
    if fields != [] {
      var init := fields[..|fields| - 1];
      forall j | 0 <= j < |init| ensures init[j] == fields[j] { }
      DeserializeFieldsWithoutErrors(st, data, init, index);
    }
  }

  /** The loaded pairs are exactly the fields that are not dump-only and
      have a raw input, under their output key. */
  lemma {:induction false} LoadedContents(data: seq<(string, Value)>, fields: FieldsDict, k: string, v: Value)
    ensures (k, v) in Loaded(data, fields)
            <==> exists j | 0 <= j < |fields| ::
                   && !fields[j].1.dumpOnly
                   && RawValue(data, fields[j].0, fields[j].1) != Missing
                   && k == OutputKey(fields[j].0, fields[j].1)
                   && v == LoadedValue(fields[j].1, RawValue(data, fields[j].0, fields[j].1))
    decreases |fields|
  {
    if fields != [] {
      var init := fields[..|fields| - 1];
      LoadedContents(data, init, k, v);
      forall j | 0 <= j < |init| ensures init[j] == fields[j] { }
    }
  }

  /** `j` is the first field that is not dump-only. */
  ghost predicate FirstLoadable(fields: FieldsDict, j: int) {
    0 <= j < |fields| && !fields[j].1.dumpOnly && forall i | 0 <= i < j :: fields[i].1.dumpOnly
  }

  /** Data without `get`: the first field that is not dump-only raises
      "Data must be a dict" for itself, before anything is recorded; with
      only dump-only fields nothing is loaded and nothing raised. */
  lemma {:induction false} NonDictData(st: StoreState, data: Value, fields: FieldsDict, index: Option<int>)
    requires WellFormed(st.errors) && !data.Dict?
    ensures var (r, st') := DeserializeFields(st, data, fields, index);
            && st' == st
            && (r.Ok? <==> forall j | 0 <= j < |fields| :: fields[j].1.dumpOnly)
            && (r.Ok? ==> r.value == [])
            && (r.Raise? ==> exists j :: FirstLoadable(fields, j) && r.exc == NotADict(data, fields[j].0, fields[j].1))
    decreases |fields|
  {
    if fields != [] {
      var n := |fields| - 1;
      var init := fields[..n];
      NonDictData(st, data, init, index);
      var r0 := DeserializeFields(st, data, init, index).0;
      if r0.Raise? {
        var j :| FirstLoadable(init, j) && r0.exc == NotADict(data, init[j].0, init[j].1);
        assert init[j] == fields[j];
        assert FirstLoadable(fields, j) by {
          forall i | 0 <= i < j ensures fields[i].1.dumpOnly {
            assert init[i] == fields[i];
          }
        }
      } else {
        forall j | 0 <= j < n ensures fields[j].1.dumpOnly {
          assert init[j] == fields[j];
        }
        if !fields[n].1.dumpOnly {
          assert FirstLoadable(fields, n);
        }
      }
    }
  }

  /** A validator raising `ValidationError` with distinct field names: a
      name missing from the fields dict is a `KeyError` that records
      nothing; otherwise the messages are filed under each name (or under
      `_schema` when it names none), every name's entry becoming what filing
      under it alone makes of it and no other entry changing, and under
      `strict` the error is raised again with those names and their field
      objects. Filing that fails is an `AttributeError`. */
  lemma ValidationErrorFiled(st: StoreState, v: Validator, output: Value, raw: Value, fields: FieldsDict, strict: bool,
                             err: ValidationError)
    requires WellFormed(st.errors)
    requires v.run(output, raw) == Raise(Validation(err)) && DistinctStrings(err.fieldNames)
    ensures var (r, st') := ValidatorStep(st, v, output, raw, fields, strict);
            var names := if err.fieldNames != [] then err.fieldNames else ["_schema"];
            var objs := FieldsFor(fields, err.fieldNames);
            var fileable := forall i | 0 <= i < |names| :: RecordSchemaError(st.errors, names[i], err.messages).Some?;
            && (objs.None? ==> r == Raise(Other("KeyError")) && st' == st)
            && (objs.Some? && !fileable ==> r == Raise(Other("AttributeError")))
            && (objs.Some? && fileable ==>
                  && (forall i | 0 <= i < |names| ::
                        && Name(names[i]) in st'.errors
                        && st'.errors[Name(names[i])] == RecordSchemaError(st.errors, names[i], err.messages).value[Name(names[i])])
                  && (forall k: ErrKey {:trigger SameAt(st.errors, st'.errors, k)} | !(k.Name? && k.name in names) :: SameAt(st.errors, st'.errors, k))
                  && r == if strict then Raise(Validation(ValidationError(DictMessages(st'.errors), names, objs.value)))
                          else Ok(output))
  {
    var names := if err.fieldNames != [] then err.fieldNames else ["_schema"];
    FileUnderDistinct(st.errors, names, err.messages);
    FileUnderKeepsOthers(st.errors, names, err.messages);
  }

  /** A validator returning `False` files "Schema validator ... is False"
      under `_schema`, after what was there, and raises only when strict. */
  lemma FalseValidatorRecordsSchema(st: StoreState, v: Validator, output: Value, raw: Value, fields: FieldsDict, strict: bool)
    requires WellFormed(st.errors)
    requires v.run(output, raw) == Ok(Bool(false)) && DictConversionError(output).None?
    requires Name("_schema") !in st.errors || st.errors[Name("_schema")].MsgList?
    ensures var (r, st') := ValidatorStep(st, v, output, raw, fields, strict);
            && st'.errors == st.errors[Name("_schema") := MsgList(Prior(st.errors, Name("_schema")) + [Text(FalseMessage(v.name))])]
            && st'.errorFields == st.errorFields && st'.errorFieldNames == st.errorFieldNames
            && r == if strict then Raise(Validation(ValidationError(DictMessages(st'.errors), ["_schema"], []))) else Ok(output)
  {
    var errors := FileUnder(st.errors, ["_schema"], ListMessages([Text(FalseMessage(v.name))])).0;
    assert ["_schema"][..0] == [];
  }

  /** A validator returning `False` on an output `dict()` cannot convert
      (`None` among them) raises that conversion's error, which the except
      clause does not catch: nothing is filed. */
  lemma FalseValidatorNeedsDict(st: StoreState, v: Validator, output: Value, raw: Value, fields: FieldsDict, strict: bool)
    requires WellFormed(st.errors)
    requires v.run(output, raw) == Ok(Bool(false)) && DictConversionError(output).Some?
    ensures ValidatorStep(st, v, output, raw, fields, strict) == (Raise(Other(DictConversionError(output).value)), st)
  {
  }

  /** So `None` data with a validator returning `False` (and no
      pre-processing to turn `None` into a dict) raises `TypeError`, and the
      bookkeeping stays as it was. */
  lemma NoneDataFalseValidator(st: StoreState, fields: FieldsDict, v: Validator, postprocess: seq<Value -> Value>,
                               strict: bool, index: Option<int>)
    requires WellFormed(st.errors)
    requires v.run(PyNone, PyNone) == Ok(Bool(false))
    ensures DeserializeOneSpec(st, PyNone, fields, [v], [], postprocess, strict, index) == (Raise(Other("TypeError")), st)
  {
    FalseValidatorNeedsDict(st, v, PyNone, PyNone, fields, strict);
    assert [v][..0] == [];
    assert Apply([], PyNone) == PyNone;
    assert ValidateSpec(st, [v], PyNone, PyNone, fields, strict) == ValidatorStep(st, v, PyNone, PyNone, fields, strict);
  }

  /** A field with no input: a required one still runs `deserialize(missing)`
      through `call_and_store`, so a `ValidationError` it raises is filed
      under its output key, but it loads nothing; one that is not required
      is skipped, and nothing is recorded. */
  lemma NoInput(done: seq<(string, Value)>, st: StoreState, data: seq<(string, Value)>, name: string, f: Field, index: Option<int>)
    requires WellFormed(st.errors)
    requires !f.dumpOnly && RawValue(data, name, f) == Missing
    ensures var (r, st') := LoadStep(done, st, Dict(data), (name, f), index);
            var (got, st1) := CallAndStoreSpec(st, f.deserialize(Missing), OutputKey(name, f), f, index);
            && (f.required ==> st' == st1 && r == if got.Raise? then Raise(got.exc) else Ok(done))
            && (f.required && f.deserialize(Missing).Raise? && f.deserialize(Missing).exc.Validation? ==>
                  && st'.errorFieldNames == st.errorFieldNames + [OutputKey(name, f)]
                  && st'.errorFields == st.errorFields + [f])
            && (!f.required ==> r == Ok(done) && st' == st)
  {
  }

  /** The field loop touches no top-level entry of the errors dict other
      than its own slots: with an index, only that item's entry; without
      one, no per-item entry at all. */
  lemma {:induction false} DeserializeFieldsKeepsOtherSlots(st: StoreState, data: Value, fields: FieldsDict, index: Option<int>, k: ErrKey)
    requires WellFormed(st.errors)
    requires if index.Some? then k != Index(index.value) else k.Index?
    ensures SameAt(st.errors, DeserializeFields(st, data, fields, index).1.errors, k)
    decreases |fields|
  {
    if fields != [] {
      var init := fields[..|fields| - 1];
      DeserializeFieldsKeepsOtherSlots(st, data, init, index, k);
      var (done, st1) := DeserializeFields(st, data, init, index);
      if done.Ok? {
        var (name, f) := fields[|fields| - 1];
        if !f.dumpOnly && data.Dict? {
          var raw := RawValue(data.entries, name, f);
          CallAndStoreTouchesOneSlot(st1, f.deserialize(raw), OutputKey(name, f), f, index, k);
        }
      }
    }
  }

  /** Deserializing one item changes no other item's entry. */
  lemma DeserializeOneKeepsOtherItems(st: StoreState, data: Value, fields: FieldsDict, validators: seq<Validator>,
                                      preprocess: seq<Value -> Value>, postprocess: seq<Value -> Value>,
                                      strict: bool, index: Option<int>, j: int)
    requires WellFormed(st.errors) && index != Some(j)
    ensures SameAt(st.errors, DeserializeOneSpec(st, data, fields, validators, preprocess, postprocess, strict, index).1.errors, Index(j))
  {
    var (loaded, st1) := LoadSpec(st, data, fields, index);
    if data != PyNone {
      DeserializeFieldsKeepsOtherSlots(st, data, fields, index, Index(j));
    }
    if loaded.Ok? {
      ValidateKeepsItemErrors(st1, validators, Apply(preprocess, loaded.value), data, fields, strict, j);
    }
  }

  /** The errors of item `j` are settled once item `j` is done: no later
      item changes its entry. */
  lemma {:induction false} DeserializeManyErrorsPerElement(st: StoreState, items: seq<Value>, fields: FieldsDict,
                                                           validators: seq<Validator>, preprocess: seq<Value -> Value>,
                                                           postprocess: seq<Value -> Value>, strict: bool, indexErrors: bool, j: nat)
    requires WellFormed(st.errors) && j < |items|
    ensures SameAt(DeserializeManySpec(st, items[..j + 1], fields, validators, preprocess, postprocess, strict, indexErrors).1.errors,
                   DeserializeManySpec(st, items, fields, validators, preprocess, postprocess, strict, indexErrors).1.errors,
                   Index(j))
    decreases |items|
  {
    var n := |items| - 1;
    if j == n {
      assert items[..j + 1] == items;
    } else {
      assert items[..n][..j + 1] == items[..j + 1];
      DeserializeManyErrorsPerElement(st, items[..n], fields, validators, preprocess, postprocess, strict, indexErrors, j);
      var (done, st1) := DeserializeManySpec(st, items[..n], fields, validators, preprocess, postprocess, strict, indexErrors);
      assert items[..n + 1] == items;
      if done.Ok? {
        DeserializeManySnoc(st, items, fields, validators, preprocess, postprocess, strict, indexErrors, n);
        DeserializeOneKeepsOtherItems(st1, items[n], fields, validators, preprocess, postprocess, strict, ElementIndex(indexErrors, n), j);
      } else {
        DeserializeManyRaiseIsFinal(st, items, fields, validators, preprocess, postprocess, strict, indexErrors, n);
      }
    }
  }

  /** `deserialize` of one dict: the loaded pairs made into a dict,
      pre-processed, passed through the validators unchanged, and
      post-processed; unless `strict` is set and errors were recorded, when
      it raises a `ValidationError` carrying the errors, names and fields. */
  lemma DeserializeOneResult(st: StoreState, data: Value, fields: FieldsDict, validators: seq<Validator>,
                             preprocess: seq<Value -> Value>, postprocess: seq<Value -> Value>, strict: bool, index: Option<int>)
    requires WellFormed(st.errors) && data.Dict?
    ensures var (loaded, st1) := LoadSpec(st, data, fields, index);
            var (r, st') := DeserializeOneSpec(st, data, fields, validators, preprocess, postprocess, strict, index);
            && (loaded.Raise? ==> r == loaded && st' == st1)
            && (loaded.Ok? ==>
                  && loaded.value == Dict(DictOf(Loaded(data.entries, fields)))
                  && var (checked, st2) := ValidateSpec(st1, validators, Apply(preprocess, loaded.value), data, fields, strict);
                     && st' == st2
                     && (checked.Ok? ==>
                           r == if strict && st2.errors != map[]
                                then Raise(Validation(ValidationError(DictMessages(st2.errors), st2.errorFieldNames, st2.errorFields)))
                                else Ok(Apply(postprocess, Apply(preprocess, loaded.value)))))
  {
    DeserializeFieldsOutput(st, data, fields, index);
  }

  /** Schema-level validation never touches the per-item entries of the
      errors dict, nor the lists of failing fields and names. */
  lemma {:induction false} ValidateKeepsItemErrors(st: StoreState, validators: seq<Validator>, output: Value, raw: Value,
                                                   fields: FieldsDict, strict: bool, i: int)
    requires WellFormed(st.errors)
    ensures var st' := ValidateSpec(st, validators, output, raw, fields, strict).1;
            SameAt(st.errors, st'.errors, Index(i)) && st'.errorFields == st.errorFields && st'.errorFieldNames == st.errorFieldNames
    decreases |validators|
  {
    if validators != [] {
      ValidateKeepsItemErrors(st, validators[..|validators| - 1], output, raw, fields, strict, i);
    }
  }

  /** No data: no field is read, and the result is what the processors and
      validators make of `None`. */
  lemma NoneDataLoadsNothing(st: StoreState, fields: FieldsDict, validators: seq<Validator>,
                             preprocess: seq<Value -> Value>, postprocess: seq<Value -> Value>, strict: bool, index: Option<int>)
    requires WellFormed(st.errors)
    ensures var (checked, st1) := ValidateSpec(st, validators, Apply(preprocess, PyNone), PyNone, fields, strict);
            var (r, st2) := DeserializeOneSpec(st, PyNone, fields, validators, preprocess, postprocess, strict, index);
            && st2 == st1
            && (checked.Ok? && !(strict && st1.errors != map[]) ==> r == Ok(Apply(postprocess, Apply(preprocess, PyNone))))
  {
  }

  /** Element `i` of a many-mode result is the single-item result of item
      `i`, with index `i`, from the bookkeeping the earlier items left. */
  lemma {:induction false} DeserializeManyElement(st: StoreState, items: seq<Value>, fields: FieldsDict, validators: seq<Validator>,
                                                  preprocess: seq<Value -> Value>, postprocess: seq<Value -> Value>,
                                                  strict: bool, indexErrors: bool, i: nat)
    requires WellFormed(st.errors) && i < |items|
    requires DeserializeManySpec(st, items, fields, validators, preprocess, postprocess, strict, indexErrors).0.Ok?
    ensures var before := DeserializeManySpec(st, items[..i], fields, validators, preprocess, postprocess, strict, indexErrors).1;
            var one := DeserializeOneSpec(before, items[i], fields, validators, preprocess, postprocess, strict, ElementIndex(indexErrors, i)).0;
            one.Ok? && DeserializeManySpec(st, items, fields, validators, preprocess, postprocess, strict, indexErrors).0.value[i] == one.value
    decreases |items|
  {
    var n := |items| - 1;
    var (done, st1) := DeserializeManySpec(st, items[..n], fields, validators, preprocess, postprocess, strict, indexErrors);
    assert done.Ok?;
    var step := ItemStep(done.value, st1, items[n], fields, validators, preprocess, postprocess, strict, ElementIndex(indexErrors, n));
    assert DeserializeManySpec(st, items, fields, validators, preprocess, postprocess, strict, indexErrors) == step;
    var one := DeserializeOneSpec(st1, items[n], fields, validators, preprocess, postprocess, strict, ElementIndex(indexErrors, n)).0;
    assert one.Ok? && step.0.value == done.value + [one.value];
    if i < n {
      assert items[..n][..i] == items[..i];
      DeserializeManyElement(st, items[..n], fields, validators, preprocess, postprocess, strict, indexErrors, i);
    } else {
      assert items[..i] == items[..n];
    }
  }

  class Unmarshaller {
    const store: ErrorStore

    constructor()
      ensures fresh(store) && store.Valid() && store.State() == EmptyState && !store.pending
    {
      store := new ErrorStore();
    }

    /** Deserialize `data` (a list of items with `many`) by `fields`. The
        errors are reset first unless a collection is in progress; a
        collection sets `_pending` while its items are deserialized, and an
        exception leaves it set. */
    method Deserialize(data: Value, fields: FieldsDict, many: bool, validators: seq<Validator>,
                       preprocess: seq<Value -> Value>, postprocess: seq<Value -> Value>, strict: bool,
                       indexErrors: bool, index: Option<int>)
      returns (r: Outcome<Value>)
      requires store.Valid()
      requires many && data != PyNone ==> data.List?
      modifies store
      ensures store.Valid()
      ensures var st0 := if old(store.pending) then old(store.State()) else EmptyState;
              if many && data != PyNone then
                var (rs, st1) := DeserializeManySpec(st0, data.items, fields, validators, preprocess, postprocess, strict, indexErrors);
                r == AsList(rs) && store.State() == st1 && store.pending == rs.Raise?
              else
                (r, store.State()) == DeserializeOneSpec(st0, data, fields, validators, preprocess, postprocess, strict,
                                                         if indexErrors then index else None)
                && store.pending == old(store.pending)
    {
      if !store.pending {
        store.ResetErrors();
      }
      if many && data != PyNone {
        r := DeserializeMany(data.items, fields, validators, preprocess, postprocess, strict, indexErrors);
      } else {
        r := DeserializeItem(data, fields, validators, preprocess, postprocess, strict, if indexErrors then index else None);
      }
    }

    /** The `many` branch of `deserialize`: each item deserialized in turn,
        with its position as the index, while `_pending` is set. (The
        recursive call with `many=False` does not reset the errors, since
        `_pending` is set, so it is the single-item part.) */
    method DeserializeMany(items: seq<Value>, fields: FieldsDict, validators: seq<Validator>,
                           preprocess: seq<Value -> Value>, postprocess: seq<Value -> Value>, strict: bool, indexErrors: bool)
      returns (r: Outcome<Value>)
      requires store.Valid()
      modifies store
      ensures store.Valid()
      ensures var (rs, st1) := DeserializeManySpec(old(store.State()), items, fields, validators, preprocess, postprocess, strict, indexErrors);
              r == AsList(rs) && store.State() == st1 && store.pending == rs.Raise?
    {
      store.pending := true;
      var rs := DeserializeItems(items, fields, validators, preprocess, postprocess, strict, indexErrors);
      if rs.Raise? {
        return Raise(rs.exc);
      }
      store.pending := false;
      return Ok(List(rs.value));
    }

    /** The list comprehension over the items, each with its position. */
    method DeserializeItems(items: seq<Value>, fields: FieldsDict, validators: seq<Validator>,
                            preprocess: seq<Value -> Value>, postprocess: seq<Value -> Value>, strict: bool, indexErrors: bool)
      returns (rs: Outcome<seq<Value>>)
      requires store.Valid()
      modifies store
      ensures store.Valid() && store.pending == old(store.pending)
      ensures (rs, store.State())
              == DeserializeManySpec(old(store.State()), items, fields, validators, preprocess, postprocess, strict, indexErrors)
    {
      ghost var st0 := store.State();
      var ret: seq<Value> := [];
      var idx := 0;
      while idx < |items|
        invariant 0 <= idx <= |items|
        invariant store.Valid() && store.pending == old(store.pending)
        invariant DeserializeManySpec(st0, items[..idx], fields, validators, preprocess, postprocess, strict, indexErrors).0 == Ok(ret)
        invariant DeserializeManySpec(st0, items[..idx], fields, validators, preprocess, postprocess, strict, indexErrors).1 == store.State()
      {
        ghost var before := store.State();
        var d := DeserializeItem(items[idx], fields, validators, preprocess, postprocess, strict, ElementIndex(indexErrors, idx));
        DeserializeManyNext(st0, items, fields, validators, preprocess, postprocess, strict, indexErrors, idx, ret, before, d, store.State());
        if d.Raise? {
          return Raise(d.exc);
        }
        ret := ret + [d.value];
        idx := idx + 1;
      }
      assert items[..idx] == items;
      return Ok(ret);
    }

    /** The single-item part of `deserialize`: load, pre-process, validate,
        the strict check, post-process. */
    method DeserializeItem(data: Value, fields: FieldsDict, validators: seq<Validator>,
                           preprocess: seq<Value -> Value>, postprocess: seq<Value -> Value>, strict: bool, errorIndex: Option<int>)
      returns (r: Outcome<Value>)
      requires store.Valid()
      modifies store
      ensures store.Valid() && store.pending == old(store.pending)
      ensures (r, store.State())
              == DeserializeOneSpec(old(store.State()), data, fields, validators, preprocess, postprocess, strict, errorIndex)
    {
      var loaded := LoadItem(data, fields, errorIndex);
      if loaded.Raise? {
        return loaded;
      }
      var ret := ApplyAll(preprocess, loaded.value);
      if |validators| > 0 {
        var checked := Validate(validators, ret, data, fields, strict);
        if checked.Raise? {
          return checked;
        }
        ret := checked.value;
      }
      if store.errors != map[] && strict {
        return Raise(Validation(ValidationError(DictMessages(store.errors), store.errorFieldNames, store.errorFields)));
      }
      ret := ApplyAll(postprocess, ret);
      return Ok(ret);
    }

    /** The field loop of `deserialize` made into a dict, or `None` for no data. */
    method LoadItem(data: Value, fields: FieldsDict, errorIndex: Option<int>) returns (r: Outcome<Value>)
      requires store.Valid()
      modifies store
      ensures store.Valid() && store.pending == old(store.pending)
      ensures (r, store.State()) == LoadSpec(old(store.State()), data, fields, errorIndex)
    {
      if data == PyNone {
        return Ok(PyNone);
      }
      var items := LoadFields(data, fields, errorIndex);
      if items.Raise? {
        return Raise(items.exc);
      }
      return Ok(Dict(DictOf(items.value)));
    }

    /** The loop over the fields dict collecting the loaded pairs. */
    method LoadFields(data: Value, fields: FieldsDict, errorIndex: Option<int>) returns (r: Outcome<seq<(string, Value)>>)
      requires store.Valid()
      modifies store
      ensures store.Valid() && store.pending == old(store.pending)
      ensures (r, store.State()) == DeserializeFields(old(store.State()), data, fields, errorIndex)
    {
      ghost var st0 := store.State();
      var items: seq<(string, Value)> := [];
      var i := 0;
      while i < |fields|
        invariant 0 <= i <= |fields|
        invariant store.Valid() && store.pending == old(store.pending)
        invariant DeserializeFields(st0, data, fields[..i], errorIndex).0 == Ok(items)
        invariant DeserializeFields(st0, data, fields[..i], errorIndex).1 == store.State()
      {
        ghost var before := store.State();
        var next := LoadEntry(items, data, fields[i], errorIndex);
        DeserializeFieldsNext(st0, data, fields, errorIndex, i, items, before, next, store.State());
        if next.Raise? {
          return Raise(next.exc);
        }
        items := next.value;
        i := i + 1;
      }
      assert fields[..i] == fields;
      return Ok(items);
    }

    /** One turn of the field loop: find the raw input, run the field's
        deserialize through `call_and_store`, keep the value when there was
        an input. */
    method LoadEntry(items: seq<(string, Value)>, data: Value, entry: (string, Field), errorIndex: Option<int>)
      returns (r: Outcome<seq<(string, Value)>>)
      requires store.Valid()
      modifies store
      ensures store.Valid() && store.pending == old(store.pending)
      ensures (r, store.State()) == LoadStep(items, old(store.State()), data, entry, errorIndex)
    {
      var (attrName, fieldObj) := entry;
      if fieldObj.dumpOnly {
        return Ok(items);
      }
      var key := if fieldObj.attribute != "" then fieldObj.attribute else attrName;
      if !data.Dict? {
        return Raise(NotADict(data, attrName, fieldObj));
      }
      var rawValue := GetOrMissing(data.entries, attrName);
      if rawValue == Missing && fieldObj.loadFrom != "" {
        rawValue := GetOrMissing(data.entries, fieldObj.loadFrom);
      }
      if rawValue == Missing && fieldObj.missing != Null {
        rawValue := fieldObj.missing;
      }
      if rawValue == Missing && !fieldObj.required {
        return Ok(items);
      }
      var value := store.CallAndStore(fieldObj.deserialize, rawValue, key, fieldObj, errorIndex);
      if value.Raise? {
        return Raise(value.exc);
      }
      if rawValue != Missing {
        return Ok(items + [(key, value.value)]);
      }
      return Ok(items);
    }

    /** Run the processors one after another. */
    method ApplyAll(funcs: seq<Value -> Value>, v: Value) returns (r: Value)
      ensures r == Apply(funcs, v)
    {
      r := v;
      for i := 0 to |funcs|
        invariant r == Apply(funcs[..i], v)
      {
        assert funcs[..i + 1][..i] == funcs[..i];
        r := funcs[i](r);
      }
      assert funcs[..|funcs|] == funcs;
    }

    /** `_validate`: each schema-level validator in turn on the output. */
    method Validate(validators: seq<Validator>, output: Value, raw: Value, fields: FieldsDict, strict: bool)
      returns (r: Outcome<Value>)
      requires store.Valid()
      modifies store
      ensures store.Valid() && store.pending == old(store.pending)
      ensures (r, store.State()) == ValidateSpec(old(store.State()), validators, output, raw, fields, strict)
    {
      ghost var st0 := store.State();
      var i := 0;
      while i < |validators|
        invariant 0 <= i <= |validators|
        invariant store.Valid() && store.pending == old(store.pending)
        invariant ValidateSpec(st0, validators[..i], output, raw, fields, strict).0 == Ok(output)
        invariant ValidateSpec(st0, validators[..i], output, raw, fields, strict).1 == store.State()
      {
        ghost var before := store.State();
        var res := RunValidator(validators[i], output, raw, fields, strict);
        ValidateNext(st0, validators, output, raw, fields, strict, i, before, res, store.State());
        if res.Raise? {
          return res;
        }
        i := i + 1;
      }
      assert validators[..i] == validators;
      return Ok(output);
    }

    /** One validator of `_validate`, with its except clause. */
    method RunValidator(v: Validator, output: Value, raw: Value, fields: FieldsDict, strict: bool)
      returns (r: Outcome<Value>)
      requires store.Valid()
      modifies store
      ensures store.Valid() && store.pending == old(store.pending)
      ensures (r, store.State()) == ValidatorStep(old(store.State()), v, output, raw, fields, strict)
    {
      var res := v.run(output, raw);
      if res.Ok? && res.value == Bool(false) {
        var failure := DictConversionError(output);
        if failure.Some? {
          return Raise(Other(failure.value));
        }
        res := Raise(Validation(ValidationError(ListMessages([Text(FalseMessage(v.name))]), [], [])));
      }
      if res.Ok? {
        return Ok(output);
      }
      if res.exc.Other? {
        return res;
      }
      var err := res.exc.err;
      var names: seq<string>;
      var objs: seq<Field>;
      if err.fieldNames != [] {
        names := err.fieldNames;
        var found := FieldsFor(fields, names);
        if found.None? {
          return Raise(Other("KeyError"));
        }
        objs := found.value;
      } else {
        names := ["_schema"];
        objs := [];
      }
      var filed := RecordSchemaErrors(names, err.messages);
      if !filed {
        return Raise(Other("AttributeError"));
      }
      if strict {
        return Raise(Validation(ValidationError(DictMessages(store.errors), names, objs)));
      }
      return Ok(output);
    }

    /** The loop of `_validate` filing one error's messages under each of
        its field names; false for the `AttributeError`. */
    method RecordSchemaErrors(names: seq<string>, messages: Messages) returns (filed: bool)
      requires store.Valid()
      modifies store
      ensures store.Valid() && store.pending == old(store.pending)
      ensures store.errorFields == old(store.errorFields) && store.errorFieldNames == old(store.errorFieldNames)
      ensures (store.errors, filed) == FileUnder(old(store.errors), names, messages)
    {
      ghost var e0 := store.errors;
      var i := 0;
      while i < |names|
        invariant 0 <= i <= |names|
        invariant store.Valid() && store.pending == old(store.pending)
        invariant store.errorFields == old(store.errorFields) && store.errorFieldNames == old(store.errorFieldNames)
        invariant FileUnder(e0, names[..i], messages).0 == store.errors
        invariant FileUnder(e0, names[..i], messages).1
      {
        ghost var before := store.errors;
        var ok := FileMessages(names[i], messages);
        FileUnderNext(e0, names, messages, i, before, store.errors, ok);
        if !ok {
          return false;
        }
        i := i + 1;
      }
      assert names[..i] == names;
      return true;
    }

    /** One turn of that loop: the messages filed under `name`. */
    method FileMessages(name: string, messages: Messages) returns (ok: bool)
      requires store.Valid()
      modifies store
      ensures store.Valid() && store.pending == old(store.pending)
      ensures store.errorFields == old(store.errorFields) && store.errorFieldNames == old(store.errorFieldNames)
      ensures (store.errors, ok) == FileStep(old(store.errors), name, messages)
    {
      var key := Name(name);
      var updated: Option<map<ErrKey, ErrVal>>;
      match messages {
        case ListMessages(items) =>
          if key in store.errors && store.errors[key].MsgDict? {
            var nested := ExtendEntry(store.errors[key].entries, Name("_schema"), items);
            updated := if nested.None? then None else Some(store.errors[key := MsgDict(nested.value)]);
          } else {
            updated := ExtendEntry(store.errors, key, items);
          }
        case DictMessages(m) =>
          updated := ExtendEntry(store.errors, key, [MsgDict(m)]);
      }
      if updated.None? {
        return false;
      }
      assert WellFormed(updated.value) by {
        forall i ensures SameAt(store.errors, updated.value, Index(i)) { }
      }
      store.errors := updated.value;
      return true;
    }
  }
}
