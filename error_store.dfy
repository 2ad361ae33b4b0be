/**
 * `ErrorStore`: the errors dict, the lists of failing fields and field names,
 * and the `_pending` flag shared by the marshaller and the unmarshaller, with
 * `reset_errors` and `call_and_store`.
 */
module ErrorStores {
  import opened MarshalTypes

  /** The error bookkeeping of a store, without `_pending`. */
  datatype StoreState = StoreState(errors: map<ErrKey, ErrVal>, errorFields: seq<Field>, errorFieldNames: seq<string>)

  const EmptyState := StoreState(map[], [], [])

  /** Per-element entries are dicts (they are only ever created as `{}`). */
  ghost predicate WellFormed(errors: map<ErrKey, ErrVal>) {
    forall k {:trigger errors[k]} | k in errors && k.Index? :: errors[k].MsgDict?
  }

  /** `k` is bound to the same thing, or to nothing, in both dicts. */
  ghost predicate SameAt(a: map<ErrKey, ErrVal>, b: map<ErrKey, ErrVal>, k: ErrKey) {
    (k in a <==> k in b) && (k in a ==> a[k] == b[k])
  }

  /** `d.setdefault(k, []).extend(items)`; `None` when the entry exists and is
      not a list, where Python raises `AttributeError`. */
  function ExtendEntry(d: map<ErrKey, ErrVal>, k: ErrKey, items: seq<ErrVal>): (r: Option<map<ErrKey, ErrVal>>)
    ensures r.None? <==> k in d && !d[k].MsgList?
    ensures r.Some? ==> k in r.value && r.value[k] == MsgList(Prior(d, k) + items)
    ensures r.Some? ==> forall k' | k' != k :: SameAt(d, r.value, k')
  {
    if k !in d then assert [] + items == items; Some(d[k := MsgList(items)])
    else if d[k].MsgList? then Some(d[k := MsgList(d[k].items + items)])
    else None
  }

  /** The messages already listed under `k`. */
  function Prior(d: map<ErrKey, ErrVal>, k: ErrKey): seq<ErrVal> {
    if k in d && d[k].MsgList? then d[k].items else []
  }

  /** The dict `call_and_store` writes into: the errors dict itself, or the
      entry for the element's index (`errors.get(index, {})`). */
  function Bucket(errors: map<ErrKey, ErrVal>, index: Option<int>): map<ErrKey, ErrVal> {
    match index
    case None => errors
    case Some(i) => if Index(i) in errors && errors[Index(i)].MsgDict? then errors[Index(i)].entries else map[]
  }

  /** The top-level key `call_and_store` touches. */
  function Slot(name: string, index: Option<int>): ErrKey {
    match index
    case None => Name(name)
    case Some(i) => Index(i)
  }

  /** The index an element's errors are filed under: its position with
      `index_errors`, none without. */
  function ElementIndex(indexErrors: bool, i: int): (r: Option<int>)
    ensures r.Some? <==> indexErrors
    ensures r.Some? ==> r.value == i
  {
    if indexErrors then Some(i) else None
  }

  /** How `call_and_store` files the messages of a `ValidationError` raised
      for `name`: the new errors dict, and whether filing succeeded (it fails,
      with `AttributeError`, when list messages meet an entry that is not a
      list). Dict messages replace the entry; list messages extend it. */
  function StoreMessages(errors: map<ErrKey, ErrVal>, name: string, index: Option<int>, messages: Messages)
    : (r: (map<ErrKey, ErrVal>, bool))
    requires WellFormed(errors)
    ensures WellFormed(r.0)
    ensures forall k | k != Slot(name, index) :: SameAt(errors, r.0, k)
    ensures index.Some? ==> Index(index.value) in r.0
    ensures index.Some? ==> forall k | k != Name(name) :: SameAt(Bucket(errors, index), Bucket(r.0, index), k)
    ensures r.1 <==> !(messages.ListMessages? && Name(name) in Bucket(errors, index)
                       && !Bucket(errors, index)[Name(name)].MsgList?)
    ensures r.1 && messages.DictMessages? ==>
              Name(name) in Bucket(r.0, index) && Bucket(r.0, index)[Name(name)] == MsgDict(messages.entries)
    ensures r.1 && messages.ListMessages? ==>
              Name(name) in Bucket(r.0, index)
              && Bucket(r.0, index)[Name(name)] == MsgList(Prior(Bucket(errors, index), Name(name)) + messages.items)
    ensures !r.1 ==> Bucket(r.0, index) == Bucket(errors, index)
  {
    var bucket := Bucket(errors, index);
    var placed := if index.Some? then errors[Index(index.value) := MsgDict(bucket)] else errors;
    var filled := match messages
      case DictMessages(m) => Some(bucket[Name(name) := MsgDict(m)])
      case ListMessages(items) => ExtendEntry(bucket, Name(name), items);
    match filled
    case None => (placed, false)
    case Some(b) => (if index.Some? then errors[Index(index.value) := MsgDict(b)] else b, true)
  }

  /** What `call_and_store` returns and leaves behind, given what the getter
      did: a value passes through untouched; a `ValidationError` is recorded
      and becomes `None`; any other exception is re-raised. */
  function CallAndStoreSpec(st: StoreState, got: Outcome<Value>, name: string, fieldObj: Field, index: Option<int>)
    : (r: (Outcome<Value>, StoreState))
    requires WellFormed(st.errors)
    ensures WellFormed(r.1.errors)
    ensures got.Ok? ==> r == (got, st)
    ensures got.Raise? && got.exc.Other? ==> r == (got, st)
    ensures got.Raise? && got.exc.Validation? ==>
              && r.1.errorFields == st.errorFields + [fieldObj]
              && r.1.errorFieldNames == st.errorFieldNames + [name]
              && r.1.errors == StoreMessages(st.errors, name, index, got.exc.err.messages).0
              && r.0 == if StoreMessages(st.errors, name, index, got.exc.err.messages).1
                        then Ok(PyNone) else Raise(Other("AttributeError"))
  {
    match got
    case Ok(_) => (got, st)
    case Raise(Other(_)) => (got, st)
    case Raise(Validation(err)) =>
      var (errors, filed) := StoreMessages(st.errors, name, index, err.messages);
      (if filed then Ok(PyNone) else Raise(Other("AttributeError")),
       StoreState(errors, st.errorFields + [fieldObj], st.errorFieldNames + [name]))
  }

  class ErrorStore {
    /** Dictionary of errors stored during (de)serialization. */
    var errors: map<ErrKey, ErrVal>
    /** Field objects which have validation errors. */
    var errorFields: seq<Field>
    /** Names under which validation errors were stored. */
    var errorFieldNames: seq<string>
    /** True while (de)serializing a collection. */
    var pending: bool

    ghost predicate Valid()
      reads this
    {
      WellFormed(errors)
    }

    function State(): StoreState
      reads this
    {
      StoreState(errors, errorFields, errorFieldNames)
    }

    constructor()
      ensures Valid() && State() == EmptyState && !pending
    {
      errors := map[];
      errorFields := [];
      errorFieldNames := [];
      pending := false;
    }

    method ResetErrors()
      modifies this
      ensures Valid() && State() == EmptyState && pending == old(pending)
    {
      errors := map[];
      errorFieldNames := [];
      errorFields := [];
    }

    /** Call `getter(data)` and store any `ValidationError` it raises. */
    method CallAndStore(getter: Value -> Outcome<Value>, data: Value, fieldName: string, fieldObj: Field, index: Option<int>)
      returns (value: Outcome<Value>)
      requires Valid()
      modifies this
      ensures Valid() && pending == old(pending)
      ensures (value, State()) == CallAndStoreSpec(old(State()), getter(data), fieldName, fieldObj, index)
    {
      value := getter(data);
      match value {
        case Ok(_) =>
        case Raise(Other(_)) =>
        case Raise(Validation(err)) =>
          ghost var before := errors;
          errorFields := errorFields + [fieldObj];
          errorFieldNames := errorFieldNames + [fieldName];
          var target: map<ErrKey, ErrVal>;
          if index.Some? {
            target := Bucket(errors, index);
            errors := errors[Index(index.value) := MsgDict(target)];
          } else {
            target := errors;
          }
          match err.messages {
            case DictMessages(m) =>
              target := target[Name(fieldName) := MsgDict(m)];
              value := Ok(PyNone);
            case ListMessages(items) =>
              if Name(fieldName) !in target {
                target := target[Name(fieldName) := MsgList(items)];
                value := Ok(PyNone);
              } else if target[Name(fieldName)].MsgList? {
                target := target[Name(fieldName) := MsgList(target[Name(fieldName)].items + items)];
                value := Ok(PyNone);
              } else {
                return Raise(Other("AttributeError"));
              }
          }
          if index.Some? {
            errors := errors[Index(index.value) := MsgDict(target)];
            assert errors == before[Index(index.value) := MsgDict(target)];
          } else {
            errors := target;
          }
      }
    }
  }

  /** A getter that succeeds leaves every entry of the errors dict alone;
      one that raises `ValidationError` changes only its own slot. */
  lemma CallAndStoreTouchesOneSlot(st: StoreState, got: Outcome<Value>, name: string, fieldObj: Field, index: Option<int>, k: ErrKey)
    requires WellFormed(st.errors)
    requires got.Ok? || k != Slot(name, index)
    ensures SameAt(st.errors, CallAndStoreSpec(st, got, name, fieldObj, index).1.errors, k)
  {
  }
}
