/**
 * `Marshaller.serialize`: one object, or a list of them with `many`, turned
 * into dicts by the fields, with validation errors collected in the store.
 */
module Serializing {
  import opened MarshalTypes
  import opened ErrorStores

  /** The value `call_and_store` hands back for a field whose getter did not
      raise anything other than a `ValidationError`. */
  function FieldValue(f: Field, name: string, obj: Value, accessor: Accessor): Value {
    match f.serialize(name, obj, accessor)
    case Ok(v) => v
    case Raise(_) => PyNone
  }

  /** The three reasons to leave a field out of the output. */
  predicate Skipped(f: Field, v: Value, skipMissing: bool)
    ensures v == Missing || f.loadOnly ==> Skipped(f, v, skipMissing)
    ensures !skipMissing ==> (Skipped(f, v, skipMissing) <==> v == Missing || f.loadOnly)
  {
    f.loadOnly || v == Missing || (skipMissing && f.skippable(v))
  }

  /** The output pairs, in the fields dict's order, leaving the error
      bookkeeping aside. */
  function Emitted(prefix: string, obj: Value, fields: FieldsDict, skipMissing: bool, accessor: Accessor)
    : seq<(string, Value)>
    decreases |fields|
  {
    if fields == [] then []
    else
      var done := Emitted(prefix, obj, fields[..|fields| - 1], skipMissing, accessor);
      var (name, f) := fields[|fields| - 1];
      var v := FieldValue(f, name, obj, accessor);
      if Skipped(f, v, skipMissing) then done else done + [(prefix + name, v)]
  }

  /** One turn of the field loop of `serialize`, after the pairs `done`. */
  function FieldStep(done: seq<(string, Value)>, st: StoreState, prefix: string, obj: Value, entry: (string, Field),
                     skipMissing: bool, accessor: Accessor, index: Option<int>)
    : (r: (Outcome<seq<(string, Value)>>, StoreState))
    requires WellFormed(st.errors)
    ensures WellFormed(r.1.errors)
    ensures r.0.Raise? ==> entry.1.serialize(entry.0, obj, accessor).Raise?
    ensures r.0.Ok? ==> done <= r.0.value && |r.0.value| <= |done| + 1
    ensures r.0.Ok? && |r.0.value| > |done| ==> r.0.value[|done|].0 == prefix + entry.0
    ensures r.1.errorFieldNames == st.errorFieldNames || r.1.errorFieldNames == st.errorFieldNames + [prefix + entry.0]
  {
    var (name, f) := entry;
    var key := prefix + name;
    var (got, st') := CallAndStoreSpec(st, f.serialize(name, obj, accessor), key, f, index);
    if got.Raise? then (Raise(got.exc), st')
    else if Skipped(f, got.value, skipMissing) then (Ok(done), st')
    else (Ok(done + [(key, got.value)]), st')
  }

  /** The field loop of `serialize`: the pairs collected, or the exception
      that ended the loop, and the store's bookkeeping after it. */
  function SerializeFields(st: StoreState, prefix: string, obj: Value, fields: FieldsDict, skipMissing: bool,
                           accessor: Accessor, index: Option<int>)
    : (r: (Outcome<seq<(string, Value)>>, StoreState))
    requires WellFormed(st.errors)
    ensures WellFormed(r.1.errors)
    ensures r.0.Ok? ==> |r.0.value| <= |fields|
    ensures |st.errorFieldNames| <= |r.1.errorFieldNames| <= |st.errorFieldNames| + |fields|
    decreases |fields|
  {
    if fields == [] then (Ok([]), st)
    else
      var (done, st1) := SerializeFields(st, prefix, obj, fields[..|fields| - 1], skipMissing, accessor, index);
      if done.Raise? then (done, st1)
      else FieldStep(done.value, st1, prefix, obj, fields[|fields| - 1], skipMissing, accessor, index)
  }

  /** `serialize` of a single object, from the bookkeeping it starts with. */
  function SerializeOneSpec(st: StoreState, prefix: string, obj: Value, fields: FieldsDict, strict: bool,
                            skipMissing: bool, accessor: Accessor, index: Option<int>)
    : (r: (Outcome<Value>, StoreState))
    requires WellFormed(st.errors)
    ensures WellFormed(r.1.errors)
    ensures r.0.Ok? ==> r.0.value.Dict?
    ensures r.0.Ok? && strict ==> |r.1.errors| == 0
  {
    var (items, st1) := SerializeFields(st, prefix, obj, fields, skipMissing, accessor, index);
    if items.Raise? then (Raise(items.exc), st1)
    else if st1.errors != map[] && strict then
      (Raise(Validation(ValidationError(DictMessages(st1.errors), st1.errorFieldNames, st1.errorFields))), st1)
    else (Ok(Dict(DictOf(items.value))), st1)
  }

  /** `serialize` with `many`: the elements in order, each with its own index,
      all sharing one bookkeeping; the first exception ends the list. */
  function SerializeManySpec(st: StoreState, prefix: string, objs: seq<Value>, fields: FieldsDict, strict: bool,
                             skipMissing: bool, accessor: Accessor, indexErrors: bool)
    : (r: (Outcome<seq<Value>>, StoreState))
    requires WellFormed(st.errors)
    ensures WellFormed(r.1.errors)
    ensures r.0.Ok? ==> |r.0.value| == |objs|
    decreases |objs|
  {
    if objs == [] then (Ok([]), st)
    else
      var n := |objs| - 1;
      var (done, st1) := SerializeManySpec(st, prefix, objs[..n], fields, strict, skipMissing, accessor, indexErrors);
      if done.Raise? then (done, st1)
      else ElementStep(done.value, st1, prefix, objs[n], fields, strict, skipMissing, accessor, ElementIndex(indexErrors, n))
  }

  /** One element of many mode, after the results `done`. */
  function ElementStep(done: seq<Value>, st: StoreState, prefix: string, obj: Value, fields: FieldsDict, strict: bool,
                       skipMissing: bool, accessor: Accessor, index: Option<int>)
    : (r: (Outcome<seq<Value>>, StoreState))
    requires WellFormed(st.errors)
    ensures WellFormed(r.1.errors)
    ensures r.0.Ok? ==> done <= r.0.value
    ensures r.0.Ok? ==> |r.0.value| == |done| + 1
  {
    var (one, st') := SerializeOneSpec(st, prefix, obj, fields, strict, skipMissing, accessor, index);
    if one.Raise? then (Raise(one.exc), st') else (Ok(done + [one.value]), st')
  }

  // ---------------------------------------------------------------------
  // Properties of the specification
  // ---------------------------------------------------------------------

  /** An exception in the field loop is final: later fields are not looked at. */
  /** An exception among the earlier fields is the outcome with one more field. */
  lemma SerializeFieldsRaiseStep(st: StoreState, prefix: string, obj: Value, fields: FieldsDict,
                                    skipMissing: bool, accessor: Accessor, index: Option<int>)
    requires WellFormed(st.errors) && fields != []
    requires SerializeFields(st, prefix, obj, fields[..|fields| - 1], skipMissing, accessor, index).0.Raise?
    ensures SerializeFields(st, prefix, obj, fields, skipMissing, accessor, index)
            == SerializeFields(st, prefix, obj, fields[..|fields| - 1], skipMissing, accessor, index)
  {
  }

  lemma {:induction false} SerializeFieldsRaiseIsFinal(st: StoreState, prefix: string, obj: Value, fields: FieldsDict,
                                                       skipMissing: bool, accessor: Accessor, index: Option<int>, i: nat)
    requires WellFormed(st.errors) && i <= |fields|
    requires SerializeFields(st, prefix, obj, fields[..i], skipMissing, accessor, index).0.Raise?
    ensures SerializeFields(st, prefix, obj, fields, skipMissing, accessor, index)
            == SerializeFields(st, prefix, obj, fields[..i], skipMissing, accessor, index)
    decreases |fields| - i
  {
    if i < |fields| {
      var n := |fields| - 1;
      var init := fields[..n];
      assert init[..i] == fields[..i];
      SerializeFieldsRaiseIsFinal(st, prefix, obj, init, skipMissing, accessor, index, i);
      SerializeFieldsRaiseStep(st, prefix, obj, fields, skipMissing, accessor, index);
      assert SerializeFields(st, prefix, obj, init, skipMissing, accessor, index)
          == SerializeFields(st, prefix, obj, fields[..i], skipMissing, accessor, index);
    } else {
      assert fields[..i] == fields;
    }
  }

  /** An exception in many mode is final: later elements are not looked at. */
  /** An exception among the earlier elements is the outcome with one more element. */
  lemma SerializeManyRaiseStep(st: StoreState, prefix: string, objs: seq<Value>, fields: FieldsDict,
                                  strict: bool, skipMissing: bool, accessor: Accessor, indexErrors: bool)
    requires WellFormed(st.errors) && objs != []
    requires SerializeManySpec(st, prefix, objs[..|objs| - 1], fields, strict, skipMissing, accessor, indexErrors).0.Raise?
    ensures SerializeManySpec(st, prefix, objs, fields, strict, skipMissing, accessor, indexErrors)
            == SerializeManySpec(st, prefix, objs[..|objs| - 1], fields, strict, skipMissing, accessor, indexErrors)
  {
  }

  lemma {:induction false} SerializeManyRaiseIsFinal(st: StoreState, prefix: string, objs: seq<Value>, fields: FieldsDict,
                                                     strict: bool, skipMissing: bool, accessor: Accessor, indexErrors: bool, i: nat)
    requires WellFormed(st.errors) && i <= |objs|
    requires SerializeManySpec(st, prefix, objs[..i], fields, strict, skipMissing, accessor, indexErrors).0.Raise?
    ensures SerializeManySpec(st, prefix, objs, fields, strict, skipMissing, accessor, indexErrors)
            == SerializeManySpec(st, prefix, objs[..i], fields, strict, skipMissing, accessor, indexErrors)
    decreases |objs| - i
  {
    if i < |objs| {
      var n := |objs| - 1;
      var init := objs[..n];
      assert init[..i] == objs[..i];
      SerializeManyRaiseIsFinal(st, prefix, init, fields, strict, skipMissing, accessor, indexErrors, i);
      SerializeManyRaiseStep(st, prefix, objs, fields, strict, skipMissing, accessor, indexErrors);
      assert SerializeManySpec(st, prefix, init, fields, strict, skipMissing, accessor, indexErrors)
          == SerializeManySpec(st, prefix, objs[..i], fields, strict, skipMissing, accessor, indexErrors);
    } else {
      assert objs[..i] == objs;
    }
  }

  /** Whatever the error bookkeeping does, a loop that ends without an
      exception yields exactly the emitted pairs. */
  lemma {:induction false} SerializeFieldsOutput(st: StoreState, prefix: string, obj: Value, fields: FieldsDict,
                                                 skipMissing: bool, accessor: Accessor, index: Option<int>)
    requires WellFormed(st.errors)
    ensures var (items, _) := SerializeFields(st, prefix, obj, fields, skipMissing, accessor, index);
            items.Ok? ==> items.value == Emitted(prefix, obj, fields, skipMissing, accessor)
    decreases |fields|
  {
    if fields != [] {
      SerializeFieldsOutput(st, prefix, obj, fields[..|fields| - 1], skipMissing, accessor, index);
    }
  }

  /** The output holds a pair exactly when some field, not skipped, produced
      that value under that (prefixed) name. */
  lemma {:induction false} EmittedContents(prefix: string, obj: Value, fields: FieldsDict, skipMissing: bool,
                                           accessor: Accessor, k: string, v: Value)
    ensures (k, v) in Emitted(prefix, obj, fields, skipMissing, accessor)
            <==> exists j | 0 <= j < |fields| ::
                   && k == prefix + fields[j].0
                   && v == FieldValue(fields[j].1, fields[j].0, obj, accessor)
                   && !Skipped(fields[j].1, v, skipMissing)
    decreases |fields|
  {
    if fields != [] {
      var init := fields[..|fields| - 1];
      EmittedContents(prefix, obj, init, skipMissing, accessor, k, v);
      forall j | 0 <= j < |init| ensures init[j] == fields[j] { }
    }
  }

  /** With distinct field names the output has distinct keys, each the
      prefixed name of a field. */
  lemma {:induction false} EmittedKeys(prefix: string, obj: Value, fields: FieldsDict, skipMissing: bool, accessor: Accessor)
    requires DistinctNames(fields)
    ensures var out := Emitted(prefix, obj, fields, skipMissing, accessor);
            && DistinctKeys(out)
            && forall i | 0 <= i < |out| :: exists j | 0 <= j < |fields| :: out[i].0 == prefix + fields[j].0
    decreases |fields|
  {
    if fields != [] {
      var n := |fields| - 1;
      var init := fields[..n];
      EmittedKeys(prefix, obj, init, skipMissing, accessor);
      var done := Emitted(prefix, obj, init, skipMissing, accessor);
      var out := Emitted(prefix, obj, fields, skipMissing, accessor);
      forall i | 0 <= i < |done| ensures done[i].0 != prefix + fields[n].0 {
        var j :| 0 <= j < |init| && done[i].0 == prefix + init[j].0;
        assert init[j] == fields[j];
        assert fields[j].0 != fields[n].0;
        assert (prefix + fields[j].0)[|prefix|..] == fields[j].0;
        assert (prefix + fields[n].0)[|prefix|..] == fields[n].0;
      }
      forall i | 0 <= i < |out| ensures exists j | 0 <= j < |fields| :: out[i].0 == prefix + fields[j].0 {
        if i < |done| {
          var j :| 0 <= j < |init| && done[i].0 == prefix + init[j].0;
          assert init[j] == fields[j];
        } else {
          assert out[i].0 == prefix + fields[n].0;
        }
      }
    }
  }

  /** When every field's serialize returns normally, the bookkeeping is left
      exactly as it was and the output is the emitted pairs. */
  lemma {:induction false} SerializeFieldsWithoutErrors(st: StoreState, prefix: string, obj: Value, fields: FieldsDict,
                                                        skipMissing: bool, accessor: Accessor, index: Option<int>)
    requires WellFormed(st.errors)
    requires forall j | 0 <= j < |fields| :: fields[j].1.serialize(fields[j].0, obj, accessor).Ok?
    ensures SerializeFields(st, prefix, obj, fields, skipMissing, accessor, index)
            == (Ok(Emitted(prefix, obj, fields, skipMissing, accessor)), st)
    decreases |fields|
  {
    if fields != [] {
      var init := fields[..|fields| - 1];
      forall j | 0 <= j < |init| ensures init[j] == fields[j] { }
      SerializeFieldsWithoutErrors(st, prefix, obj, init, skipMissing, accessor, index);
    }
  }

  /** The field loop touches no top-level entry of the errors dict other
      than its own slots: with an element index, only that element's entry;
      without one, no per-element entry at all. */
  lemma {:induction false} SerializeFieldsKeepsOtherSlots(st: StoreState, prefix: string, obj: Value, fields: FieldsDict,
                                                          skipMissing: bool, accessor: Accessor, index: Option<int>, k: ErrKey)
    requires WellFormed(st.errors)
    requires if index.Some? then k != Index(index.value) else k.Index?
    ensures SameAt(st.errors, SerializeFields(st, prefix, obj, fields, skipMissing, accessor, index).1.errors, k)
    decreases |fields|
  {
    if fields != [] {
      var n := |fields| - 1;
      SerializeFieldsKeepsOtherSlots(st, prefix, obj, fields[..n], skipMissing, accessor, index, k);
      var (done, st1) := SerializeFields(st, prefix, obj, fields[..n], skipMissing, accessor, index);
      assert fields[..n + 1] == fields;
      if done.Ok? {
        SerializeFieldsSnoc(st, prefix, obj, fields, skipMissing, accessor, index, n);
        FieldStepKeepsOtherSlots(done.value, st1, prefix, obj, fields[n], skipMissing, accessor, index, k);
      } else {
        SerializeFieldsRaiseIsFinal(st, prefix, obj, fields, skipMissing, accessor, index, n);
      }
    }
  }

  /** One field touches no top-level entry other than its own slot. */
  lemma FieldStepKeepsOtherSlots(done: seq<(string, Value)>, st: StoreState, prefix: string, obj: Value, entry: (string, Field),
                                 skipMissing: bool, accessor: Accessor, index: Option<int>, k: ErrKey)
    requires WellFormed(st.errors)
    requires if index.Some? then k != Index(index.value) else k.Index?
    ensures SameAt(st.errors, FieldStep(done, st, prefix, obj, entry, skipMissing, accessor, index).1.errors, k)
  {
    CallAndStoreTouchesOneSlot(st, entry.1.serialize(entry.0, obj, accessor), prefix + entry.0, entry.1, index, k);
  }

  /** `serialize` of one object with distinct field names: the dict of the
      emitted pairs, unless `strict` is set and errors were recorded, when it
      raises a `ValidationError` carrying the errors, names and fields. */
  lemma SerializeOneResult(st: StoreState, prefix: string, obj: Value, fields: FieldsDict, strict: bool,
                           skipMissing: bool, accessor: Accessor, index: Option<int>)
    requires WellFormed(st.errors) && DistinctNames(fields)
    ensures var (items, st1) := SerializeFields(st, prefix, obj, fields, skipMissing, accessor, index);
            var (r, st2) := SerializeOneSpec(st, prefix, obj, fields, strict, skipMissing, accessor, index);
            && st2 == st1
            && (items.Ok? ==>
                  r == if strict && st1.errors != map[]
                       then Raise(Validation(ValidationError(DictMessages(st1.errors), st1.errorFieldNames, st1.errorFields)))
                       else Ok(Dict(Emitted(prefix, obj, fields, skipMissing, accessor))))
  {
    SerializeFieldsOutput(st, prefix, obj, fields, skipMissing, accessor, index);
    EmittedKeys(prefix, obj, fields, skipMissing, accessor);
    DictOfDistinct(Emitted(prefix, obj, fields, skipMissing, accessor));
  }

  /** Element `i` of a many-mode result is the single-object result of
      element `i`, with index `i`, from the bookkeeping the earlier elements
      left behind. */
  lemma {:induction false} SerializeManyElement(st: StoreState, prefix: string, objs: seq<Value>, fields: FieldsDict, strict: bool,
                                                skipMissing: bool, accessor: Accessor, indexErrors: bool, i: nat)
    requires WellFormed(st.errors) && i < |objs|
    requires SerializeManySpec(st, prefix, objs, fields, strict, skipMissing, accessor, indexErrors).0.Ok?
    ensures var before := SerializeManySpec(st, prefix, objs[..i], fields, strict, skipMissing, accessor, indexErrors).1;
            var one := SerializeOneSpec(before, prefix, objs[i], fields, strict, skipMissing, accessor, ElementIndex(indexErrors, i)).0;
            one.Ok? && SerializeManySpec(st, prefix, objs, fields, strict, skipMissing, accessor, indexErrors).0.value[i] == one.value
    decreases |objs|
  {
    var n := |objs| - 1;
    var (done, st1) := SerializeManySpec(st, prefix, objs[..n], fields, strict, skipMissing, accessor, indexErrors);
    assert done.Ok?;
    var step := ElementStep(done.value, st1, prefix, objs[n], fields, strict, skipMissing, accessor, ElementIndex(indexErrors, n));
    assert SerializeManySpec(st, prefix, objs, fields, strict, skipMissing, accessor, indexErrors) == step;
    var one := SerializeOneSpec(st1, prefix, objs[n], fields, strict, skipMissing, accessor, ElementIndex(indexErrors, n)).0;
    assert one.Ok? && step.0.value == done.value + [one.value];
    if i < n {
      assert objs[..n][..i] == objs[..i];
      SerializeManyElement(st, prefix, objs[..n], fields, strict, skipMissing, accessor, indexErrors, i);
    } else {
      assert objs[..i] == objs[..n];
    }
  }

  /** The single-object result leaves the bookkeeping the field loop left. */
  lemma SerializeOneState(st: StoreState, prefix: string, obj: Value, fields: FieldsDict, strict: bool,
                          skipMissing: bool, accessor: Accessor, index: Option<int>)
    requires WellFormed(st.errors)
    ensures SerializeOneSpec(st, prefix, obj, fields, strict, skipMissing, accessor, index).1
            == SerializeFields(st, prefix, obj, fields, skipMissing, accessor, index).1
  {
  }

  /** The errors of element `j` are settled once element `j` is done: no
      later element changes its entry. */
  lemma {:induction false} SerializeManyErrorsPerElement(st: StoreState, prefix: string, objs: seq<Value>, fields: FieldsDict,
                                                         strict: bool, skipMissing: bool, accessor: Accessor, indexErrors: bool, j: nat)
    requires WellFormed(st.errors) && j < |objs|
    ensures SameAt(SerializeManySpec(st, prefix, objs[..j + 1], fields, strict, skipMissing, accessor, indexErrors).1.errors,
                   SerializeManySpec(st, prefix, objs, fields, strict, skipMissing, accessor, indexErrors).1.errors,
                   Index(j))
    decreases |objs|
  {
    var n := |objs| - 1;
    if j == n {
      assert objs[..j + 1] == objs;
    } else {
      assert objs[..n][..j + 1] == objs[..j + 1];
      SerializeManyErrorsPerElement(st, prefix, objs[..n], fields, strict, skipMissing, accessor, indexErrors, j);
      SerializeManyLastKeepsEarlier(st, prefix, objs, fields, strict, skipMissing, accessor, indexErrors, j);
    }
  }

  /** The last element leaves the entry of every earlier element as it was. */
  lemma SerializeManyLastKeepsEarlier(st: StoreState, prefix: string, objs: seq<Value>, fields: FieldsDict,
                                      strict: bool, skipMissing: bool, accessor: Accessor, indexErrors: bool, j: nat)
    requires WellFormed(st.errors) && j < |objs| - 1
    ensures SameAt(SerializeManySpec(st, prefix, objs[..|objs| - 1], fields, strict, skipMissing, accessor, indexErrors).1.errors,
                   SerializeManySpec(st, prefix, objs, fields, strict, skipMissing, accessor, indexErrors).1.errors,
                   Index(j))
  {
    var n := |objs| - 1;
    var (done, st1) := SerializeManySpec(st, prefix, objs[..n], fields, strict, skipMissing, accessor, indexErrors);
    assert objs[..n + 1] == objs;
    if done.Ok? {
      SerializeManySnoc(st, prefix, objs, fields, strict, skipMissing, accessor, indexErrors, n);
      SerializeOneKeepsOtherElements(st1, prefix, objs[n], fields, strict, skipMissing, accessor, ElementIndex(indexErrors, n), j);
    } else {
      SerializeManyRaiseIsFinal(st, prefix, objs, fields, strict, skipMissing, accessor, indexErrors, n);
    }
  }

  /** Serializing one element changes no other element's entry. */
  lemma SerializeOneKeepsOtherElements(st: StoreState, prefix: string, obj: Value, fields: FieldsDict, strict: bool,
                                       skipMissing: bool, accessor: Accessor, index: Option<int>, j: int)
    requires WellFormed(st.errors) && index != Some(j)
    ensures SameAt(st.errors, SerializeOneSpec(st, prefix, obj, fields, strict, skipMissing, accessor, index).1.errors, Index(j))
  {
    SerializeOneState(st, prefix, obj, fields, strict, skipMissing, accessor, index);
    SerializeFieldsKeepsOtherSlots(st, prefix, obj, fields, skipMissing, accessor, index, Index(j));
  }

  /** The field loop after `i + 1` fields is one more turn after `i`. */
  lemma SerializeFieldsSnoc(st: StoreState, prefix: string, obj: Value, fields: FieldsDict, skipMissing: bool,
                            accessor: Accessor, index: Option<int>, i: nat)
    requires WellFormed(st.errors) && i < |fields|
    requires SerializeFields(st, prefix, obj, fields[..i], skipMissing, accessor, index).0.Ok?
    ensures var (done, st1) := SerializeFields(st, prefix, obj, fields[..i], skipMissing, accessor, index);
            SerializeFields(st, prefix, obj, fields[..i + 1], skipMissing, accessor, index)
            == FieldStep(done.value, st1, prefix, obj, fields[i], skipMissing, accessor, index)
  {
    assert fields[..i + 1][..i] == fields[..i];
  }

  /** Many mode after `i + 1` elements is one more element after `i`. */
  lemma SerializeManySnoc(st: StoreState, prefix: string, objs: seq<Value>, fields: FieldsDict, strict: bool,
                          skipMissing: bool, accessor: Accessor, indexErrors: bool, i: nat)
    requires WellFormed(st.errors) && i < |objs|
    requires SerializeManySpec(st, prefix, objs[..i], fields, strict, skipMissing, accessor, indexErrors).0.Ok?
    ensures var (done, st1) := SerializeManySpec(st, prefix, objs[..i], fields, strict, skipMissing, accessor, indexErrors);
            SerializeManySpec(st, prefix, objs[..i + 1], fields, strict, skipMissing, accessor, indexErrors)
            == ElementStep(done.value, st1, prefix, objs[i], fields, strict, skipMissing, accessor, ElementIndex(indexErrors, i))
  {
    assert objs[..i + 1][..i] == objs[..i];
  }

  /** One more field: its outcome either extends the pairs or, when it
      raised, is the outcome of the whole loop. */
  lemma SerializeFieldsNext(st: StoreState, prefix: string, obj: Value, fields: FieldsDict, skipMissing: bool,
                            accessor: Accessor, index: Option<int>, i: nat, done: seq<(string, Value)>, st1: StoreState,
                            next: Outcome<seq<(string, Value)>>, st2: StoreState)
    requires WellFormed(st.errors) && i < |fields|
    requires SerializeFields(st, prefix, obj, fields[..i], skipMissing, accessor, index) == (Ok(done), st1)
    requires (next, st2) == FieldStep(done, st1, prefix, obj, fields[i], skipMissing, accessor, index)
    ensures next.Raise? ==> SerializeFields(st, prefix, obj, fields, skipMissing, accessor, index) == (next, st2)
    ensures next.Ok? ==> SerializeFields(st, prefix, obj, fields[..i + 1], skipMissing, accessor, index) == (next, st2)
  {
    SerializeFieldsSnoc(st, prefix, obj, fields, skipMissing, accessor, index, i);
    if next.Raise? {
      SerializeFieldsRaiseIsFinal(st, prefix, obj, fields, skipMissing, accessor, index, i + 1);
    }
  }

  /** One more element: its outcome either extends the list or, when it
      raised, is the outcome of the whole list. */
  lemma SerializeManyNext(st: StoreState, prefix: string, objs: seq<Value>, fields: FieldsDict, strict: bool,
                          skipMissing: bool, accessor: Accessor, indexErrors: bool, i: nat,
                          done: seq<Value>, st1: StoreState, one: Outcome<Value>, st2: StoreState)
    requires WellFormed(st.errors) && i < |objs|
    requires SerializeManySpec(st, prefix, objs[..i], fields, strict, skipMissing, accessor, indexErrors) == (Ok(done), st1)
    requires (one, st2) == SerializeOneSpec(st1, prefix, objs[i], fields, strict, skipMissing, accessor, ElementIndex(indexErrors, i))
    ensures one.Raise? ==> SerializeManySpec(st, prefix, objs, fields, strict, skipMissing, accessor, indexErrors) == (Raise(one.exc), st2)
    ensures one.Ok? ==> SerializeManySpec(st, prefix, objs[..i + 1], fields, strict, skipMissing, accessor, indexErrors) == (Ok(done + [one.value]), st2)
  {
    SerializeManySnoc(st, prefix, objs, fields, strict, skipMissing, accessor, indexErrors, i);
    if one.Raise? {
      SerializeManyRaiseIsFinal(st, prefix, objs, fields, strict, skipMissing, accessor, indexErrors, i + 1);
    }
  }

  class Marshaller {
    /** Prepended to every serialized field name. */
    const prefix: string
    const store: ErrorStore

    constructor(prefix: string)
      ensures this.prefix == prefix && fresh(store)
      ensures store.Valid() && store.State() == EmptyState && !store.pending
    {
      this.prefix := prefix;
      store := new ErrorStore();
    }

    /** Serialize `obj` (a list of objects with `many`) by `fields`. The
        errors are reset first unless a collection is in progress; a
        collection sets `_pending` while its elements are serialized, and an
        exception leaves it set. */
    method Serialize(obj: Value, fields: FieldsDict, many: bool, strict: bool, skipMissing: bool,
                     accessor: Accessor, indexErrors: bool, index: Option<int>)
      returns (r: Outcome<Value>)
      requires store.Valid()
      requires many && obj != PyNone ==> obj.List?
      modifies store
      ensures store.Valid()
      ensures var st0 := if old(store.pending) then old(store.State()) else EmptyState;
              if many && obj != PyNone then
                var (rs, st1) := SerializeManySpec(st0, prefix, obj.items, fields, strict, skipMissing, accessor, indexErrors);
                r == AsList(rs) && store.State() == st1 && store.pending == rs.Raise?
              else
                (r, store.State()) == SerializeOneSpec(st0, prefix, obj, fields, strict, skipMissing, accessor,
                                                       if indexErrors then index else None)
                && store.pending == old(store.pending)
    {
      if !store.pending {
        store.ResetErrors();
      }
      if many && obj != PyNone {
        r := SerializeMany(obj.items, fields, strict, skipMissing, accessor, indexErrors);
      } else {
        r := SerializeObject(obj, fields, strict, skipMissing, accessor,
                             if indexErrors then index else None);
      }
    }

    /** The `many` branch of `serialize`: each element serialized in turn,
        with its position as the index, while `_pending` is set. (The
        recursive call with `many=False` does not reset the errors, since
        `_pending` is set, so it is the single-object part.) */
    method SerializeMany(objs: seq<Value>, fields: FieldsDict, strict: bool, skipMissing: bool,
                         accessor: Accessor, indexErrors: bool)
      returns (r: Outcome<Value>)
      requires store.Valid()
      modifies store
      ensures store.Valid()
      ensures var (rs, st1) := SerializeManySpec(old(store.State()), prefix, objs, fields, strict, skipMissing, accessor, indexErrors);
              r == AsList(rs) && store.State() == st1 && store.pending == rs.Raise?
    {
      store.pending := true;
      var rs := SerializeElements(objs, fields, strict, skipMissing, accessor, indexErrors);
      if rs.Raise? {
        return Raise(rs.exc);
      }
      store.pending := false;
      return Ok(List(rs.value));
    }

    /** The list comprehension over the elements, each with its position. */
    method SerializeElements(objs: seq<Value>, fields: FieldsDict, strict: bool, skipMissing: bool,
                             accessor: Accessor, indexErrors: bool)
      returns (rs: Outcome<seq<Value>>)
      requires store.Valid()
      modifies store
      ensures store.Valid() && store.pending == old(store.pending)
      ensures (rs, store.State()) == SerializeManySpec(old(store.State()), prefix, objs, fields, strict, skipMissing, accessor, indexErrors)
    {
      ghost var st0 := store.State();
      var ret: seq<Value> := [];
      var idx := 0;
      while idx < |objs|
        invariant 0 <= idx <= |objs|
        invariant store.Valid() && store.pending == old(store.pending)
        invariant SerializeManySpec(st0, prefix, objs[..idx], fields, strict, skipMissing, accessor, indexErrors).0 == Ok(ret)
        invariant SerializeManySpec(st0, prefix, objs[..idx], fields, strict, skipMissing, accessor, indexErrors).1 == store.State()
      {
        ghost var before := store.State();
        var d := SerializeObject(objs[idx], fields, strict, skipMissing, accessor, ElementIndex(indexErrors, idx));
        SerializeManyNext(st0, prefix, objs, fields, strict, skipMissing, accessor, indexErrors, idx, ret, before, d, store.State());
        if d.Raise? {
          return Raise(d.exc);
        }
        ret := ret + [d.value];
        idx := idx + 1;
      }
      assert objs[..idx] == objs;
      return Ok(ret);
    }

    /** The single-object part of `serialize`: the field loop, then the
        strict check. */
    method SerializeObject(obj: Value, fields: FieldsDict, strict: bool, skipMissing: bool,
                           accessor: Accessor, errorIndex: Option<int>)
      returns (r: Outcome<Value>)
      requires store.Valid()
      modifies store
      ensures store.Valid() && store.pending == old(store.pending)
      ensures (r, store.State()) == SerializeOneSpec(old(store.State()), prefix, obj, fields, strict, skipMissing, accessor, errorIndex)
    {
      var items := SerializeItems(obj, fields, skipMissing, accessor, errorIndex);
      if items.Raise? {
        return Raise(items.exc);
      }
      if store.errors != map[] && strict {
        return Raise(Validation(ValidationError(DictMessages(store.errors), store.errorFieldNames, store.errorFields)));
      }
      return Ok(Dict(DictOf(items.value)));
    }

    /** The field loop of `serialize`. */
    method SerializeItems(obj: Value, fields: FieldsDict, skipMissing: bool, accessor: Accessor, errorIndex: Option<int>)
      returns (r: Outcome<seq<(string, Value)>>)
      requires store.Valid()
      modifies store
      ensures store.Valid() && store.pending == old(store.pending)
      ensures (r, store.State()) == SerializeFields(old(store.State()), prefix, obj, fields, skipMissing, accessor, errorIndex)
    {
      ghost var st0 := store.State();
      var items: seq<(string, Value)> := [];
      var i := 0;
      while i < |fields|
        invariant 0 <= i <= |fields|
        invariant store.Valid() && store.pending == old(store.pending)
        invariant SerializeFields(st0, prefix, obj, fields[..i], skipMissing, accessor, errorIndex).0 == Ok(items)
        invariant SerializeFields(st0, prefix, obj, fields[..i], skipMissing, accessor, errorIndex).1 == store.State()
      {
        ghost var before := store.State();
        var next := SerializeEntry(items, obj, fields[i], skipMissing, accessor, errorIndex);
        SerializeFieldsNext(st0, prefix, obj, fields, skipMissing, accessor, errorIndex, i, items, before, next, store.State());
        if next.Raise? {
          return next;
        }
        items := next.value;
        i := i + 1;
      }
      assert fields[..i] == fields;
      return Ok(items);
    }

    /** One turn of the field loop: the value through `call_and_store`, then
        appended to `items` unless the field is skipped. */
    method SerializeEntry(items: seq<(string, Value)>, obj: Value, entry: (string, Field), skipMissing: bool,
                          accessor: Accessor, errorIndex: Option<int>)
      returns (r: Outcome<seq<(string, Value)>>)
      requires store.Valid()
      modifies store
      ensures store.Valid() && store.pending == old(store.pending)
      ensures (r, store.State()) == FieldStep(items, old(store.State()), prefix, obj, entry, skipMissing, accessor, errorIndex)
    {
      var (attrName, fieldObj) := entry;
      var key := prefix + attrName;
      var value := store.CallAndStore(d => fieldObj.serialize(attrName, d, accessor), obj, key, fieldObj, errorIndex);
      if value.Raise? {
        return Raise(value.exc);
      }
      if fieldObj.loadOnly || value.value == Missing || (skipMissing && fieldObj.skippable(value.value)) {
        return Ok(items);
      }
      return Ok(items + [(key, value.value)]);
    }
  }
}
