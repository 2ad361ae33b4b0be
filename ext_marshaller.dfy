/**
 * The C accelerator of the marshaller: attribute resolution against a source
 * object (`get_value_from_object`), marshalling of one object (`marshal_one`)
 * and the module entry point (`marshaller_marshal`).
 *
 * Python objects live in an explicit heap: a `Ref` is the identity of an
 * object (a `PyObject *`), and each object offers item access (`o[key]`) and
 * attribute access (`o.name`). Identity matters because `marshal_one` passes a
 * freshly allocated sentinel dict as the default value of every lookup.
 */
module ExtMarshaller {

  datatype Option<T> = None | Some(value: T)

  /** Object identity. */
  type Ref = nat

  /** The `None` singleton lives at a fixed place in every heap. */
  const NoneRef: Ref := 0

  /** A key of the fields dict, and so a lookup key: an exact `int`, an exact
      `str`, or anything else (a `bool`, a `float`, a tuple, a `str` subclass). */
  datatype Key = IntKey(n: int) | StrKey(s: string) | OtherKey(id: nat)

  /** What `PyObject_GetItem` and `PyObject_GetAttr` can reach from an object. */
  datatype PyObject = PyObject(items: map<Key, Ref>, attrs: map<string, Ref>)

  /** A newly created dict, as `PyDict_New()` returns it. */
  const EmptyDict := PyObject(map[], map[])

  ghost predicate RefsIn(o: PyObject, objects: map<Ref, PyObject>) {
    && (forall k | k in o.items :: o.items[k] in objects)
    && (forall a | a in o.attrs :: o.attrs[a] in objects)
  }

  /** All live objects, and the first reference never handed out yet. */
  datatype Heap = Heap(objects: map<Ref, PyObject>, next: Ref) {
    /** `None` is live, every live reference is below `next`, and no object
        refers to a dead one. */
    ghost predicate Valid() {
      && NoneRef in objects
      && (forall r | r in objects :: r < next)
      && (forall r {:trigger RefsIn(objects[r], objects)} | r in objects :: RefsIn(objects[r], objects))
    }
  }

  /** Adding an object that refers only to live objects, at the first unused
      reference, keeps the heap closed. */
  lemma AllocKeepsValid(h: Heap, o: PyObject)
    requires h.Valid() && RefsIn(o, h.objects)
    ensures Heap(h.objects[h.next := o], h.next + 1).Valid()
  {
    var objects := h.objects[h.next := o];
    forall r | r in objects
      ensures RefsIn(objects[r], objects)
    {
      if r != h.next {
        assert RefsIn(h.objects[r], h.objects);
      }
    }
  }

  /** Allocation of a new object at the first unused reference. */
  function Alloc(h: Heap, o: PyObject): (h': Heap)
    requires h.Valid() && RefsIn(o, h.objects)
    ensures h'.Valid()
    ensures h.next !in h.objects && h'.objects == h.objects[h.next := o]
    ensures h'.next > h.next
  {
    AllocKeepsValid(h, o);
    Heap(h.objects[h.next := o], h.next + 1)
  }

  /** The heap after `n` successive `PyDict_New()` calls. */
  function AllocDicts(h: Heap, n: nat): (h': Heap)
    requires h.Valid()
    ensures h'.Valid() && h'.next == h.next + n
  {
    if n == 0 then h else Alloc(AllocDicts(h, n - 1), EmptyDict)
  }

  // ---------------------------------------------------------------------
  // Splitting a dotted key (`PyUnicode_Split(key, ".", -1)`)
  // ---------------------------------------------------------------------

  /** `s.split(".")`: the maximal dot-free pieces of `s`, left to right; an
      empty string and empty pieces between dots are kept. */
  function Split(s: string): (parts: seq<string>)
    ensures |parts| >= 1
    ensures forall i | 0 <= i < |parts| :: '.' !in parts[i]
    decreases |s|
  {
    if s == [] then [[]]
    else
      var rest := Split(s[1..]);
      if s[0] == '.' then [[]] + rest
      else [[s[0]] + rest[0]] + rest[1..]
  }

  /** `".".join(parts)`. */
  function Join(parts: seq<string>): string
    decreases |parts|
  {
    if parts == [] then []
    else if |parts| == 1 then parts[0]
    else parts[0] + "." + Join(parts[1..])
  }

  /** Splitting loses nothing: joining the segments back gives the key. */
  lemma {:induction false} JoinSplit(s: string)
    ensures Join(Split(s)) == s
    decreases |s|
  {
    if s != [] {
      JoinSplit(s[1..]);
      var rest := Split(s[1..]);
      if s[0] == '.' {
        assert s == "." + s[1..];
      } else {
        assert s == [s[0]] + s[1..];
        if |rest| > 1 {
          assert Join(rest) == rest[0] + "." + Join(rest[1..]);
        }
      }
    }
  }

  lemma {:induction false} SplitPrefix(p: string, tail: string)
    requires '.' !in p
    ensures Split(p + tail)[0] == p + Split(tail)[0]
    ensures Split(p + tail)[1..] == Split(tail)[1..]
    decreases |p|
  {
    if p != [] {
      assert (p + tail)[0] == p[0] != '.';
      assert (p + tail)[1..] == p[1..] + tail;
      SplitPrefix(p[1..], tail);
      assert [p[0]] + (p[1..] + Split(tail)[0]) == p + Split(tail)[0];
    } else {
      assert p + tail == tail;
    }
  }

  /** Conversely, dot-free segments are recovered exactly from their join. */
  lemma {:induction false} SplitJoin(parts: seq<string>)
    requires |parts| >= 1
    requires forall i | 0 <= i < |parts| :: '.' !in parts[i]
    ensures Split(Join(parts)) == parts
    decreases |parts|
  {
    if |parts| == 1 {
      SplitPrefix(parts[0], []);
      assert parts[0] + [] == parts[0];
    } else {
      SplitJoin(parts[1..]);
      var tail := "." + Join(parts[1..]);
      assert Join(parts) == parts[0] + tail;
      SplitPrefix(parts[0], tail);
      assert tail[0] == '.' && tail[1..] == Join(parts[1..]);
      assert Split(tail) == [[]] + Split(Join(parts[1..]));
      var r := Split(Join(parts));
      assert r[0] == parts[0] && r[1..] == parts[1..];
      assert r == [r[0]] + r[1..];
    }
  }

  // ---------------------------------------------------------------------
  // Resolution (`get_value_from_object`)
  // ---------------------------------------------------------------------

  /** One segment of a dotted key: item access first, attribute access second. */
  function Step(h: Heap, cur: Ref, seg: string): (r: Option<Ref>)
    ensures r == None <==> cur !in h.objects
                           || (StrKey(seg) !in h.objects[cur].items && seg !in h.objects[cur].attrs)
    ensures cur in h.objects && StrKey(seg) in h.objects[cur].items ==> r == Some(h.objects[cur].items[StrKey(seg)])
    ensures cur in h.objects && StrKey(seg) !in h.objects[cur].items && seg in h.objects[cur].attrs ==> r == Some(h.objects[cur].attrs[seg])
  {
    if cur !in h.objects then None
    else
      var o := h.objects[cur];
      if StrKey(seg) in o.items then Some(o.items[StrKey(seg)])
      else if seg in o.attrs then Some(o.attrs[seg])
      else None
  }

  /** The segments resolved left to right, each against the previous result;
      the first segment that fails ends the walk. */
  function Walk(h: Heap, cur: Ref, segs: seq<string>): (r: Option<Ref>)
    ensures segs == [] ==> r == Some(cur)
    ensures segs != [] && r.Some? ==> cur in h.objects && Step(h, cur, segs[0]).Some?
    decreases |segs|
  {
    if segs == [] then Some(cur)
    else match Step(h, cur, segs[0])
      case None => None
      case Some(next) => Walk(h, next, segs[1..])
  }

  /** The design-level outcome of a lookup. */
  datatype Lookup = Found(r: Ref) | Absent | UnsupportedKey

  /** What a key names on an object: an int key by item access only, a str
      key by a walk over its dotted segments, any other key nothing at all. */
  function LookupKey(h: Heap, key: Key, obj: Ref): (r: Lookup)
    ensures r.UnsupportedKey? <==> key.OtherKey?
    ensures h.Valid() && obj in h.objects && r.Found? ==> r.r in h.objects
  {
    match key
    case IntKey(_) =>
      assert h.Valid() && obj in h.objects ==> RefsIn(h.objects[obj], h.objects);
      if obj in h.objects && key in h.objects[obj].items then Found(h.objects[obj].items[key]) else Absent
    case StrKey(s) =>
      WalkStaysLive(h, obj, Split(s));
      (match Walk(h, obj, Split(s))
       case Some(r) => Found(r)
       case None => Absent)
    case OtherKey(_) => UnsupportedKey
  }

  /** What a lookup finds: for an int key the item stored under it, for a
      str key the object its walk ends on; in both cases exactly when there
      is one. */
  lemma LookupKeyFound(h: Heap, key: Key, obj: Ref)
    ensures key.IntKey? ==> (LookupKey(h, key, obj).Found? <==> obj in h.objects && key in h.objects[obj].items)
    ensures key.IntKey? && LookupKey(h, key, obj).Found? ==> LookupKey(h, key, obj).r == h.objects[obj].items[key]
    ensures key.StrKey? ==> (LookupKey(h, key, obj).Found? <==> Walk(h, obj, Split(key.s)).Some?)
    ensures key.StrKey? && LookupKey(h, key, obj).Found? ==> LookupKey(h, key, obj).r == Walk(h, obj, Split(key.s)).value
  {
  }

  /** What `get_value_from_object` returns: the object found, the caller's
      default when the lookup fails, and `None` for an unsupported key. */
  function Resolve(h: Heap, key: Key, obj: Ref, default: Ref): (r: Ref)
    ensures key.OtherKey? ==> r == NoneRef
    ensures h.Valid() && obj in h.objects ==> r in h.objects || r == default
  {
    match LookupKey(h, key, obj)
    case Found(r) => r
    case Absent => default
    case UnsupportedKey => NoneRef
  }

  /** The loop of `get_value_from_object`, specified by `Resolve`. */
  method GetValueFromObject(h: Heap, key: Key, obj: Ref, default: Ref) returns (r: Ref)
    ensures r == Resolve(h, key, obj, default)
  {
    match key {
      case IntKey(_) =>
        if obj in h.objects && key in h.objects[obj].items {
          r := h.objects[obj].items[key];
        } else {
          r := default;
        }
      case StrKey(s) =>
        var keys := Split(s);
        var prev := obj;
        var i := 0;
        while i < |keys|
          invariant 0 <= i <= |keys|
          invariant Walk(h, obj, keys) == Walk(h, prev, keys[i..])
        {
          var item := keys[i];
          var next: Ref;
          if prev in h.objects && StrKey(item) in h.objects[prev].items {
            next := h.objects[prev].items[StrKey(item)];
          } else if prev in h.objects && item in h.objects[prev].attrs {
            next := h.objects[prev].attrs[item];
          } else {
            return default;
          }
          assert keys[i..][1..] == keys[i + 1..];
          prev := next;
          i := i + 1;
        }
        r := prev;
      case OtherKey(_) =>
        r := NoneRef;
    }
  }

  /** Walking `a + b` is walking `a`, then walking `b` from where `a` ended. */
  lemma {:induction false} WalkAppend(h: Heap, cur: Ref, a: seq<string>, b: seq<string>)
    ensures Walk(h, cur, a + b) == match Walk(h, cur, a)
                                   case None => None
                                   case Some(mid) => Walk(h, mid, b)
    decreases |a|
  {
    if a != [] {
      assert (a + b)[0] == a[0] && (a + b)[1..] == a[1..] + b;
      match Step(h, cur, a[0])
      case None =>
      case Some(next) => WalkAppend(h, next, a[1..], b);
    } else {
      assert a + b == b;
    }
  }

  /** A segment on which both access strategies fail ends the walk with no
      result, whatever the later segments are. */
  lemma WalkStopsAtFailure(h: Heap, cur: Ref, before: seq<string>, seg: string, after: seq<string>)
    requires Walk(h, cur, before).Some?
    requires Step(h, Walk(h, cur, before).value, seg) == None
    ensures Walk(h, cur, before + [seg] + after) == None
  {
    WalkAppend(h, cur, before, [seg] + after);
    assert before + [seg] + after == before + ([seg] + after);
  }

  /** Segments are resolved strictly left to right: the last segment is
      resolved against the object reached by all the others. */
  lemma WalkLastSegment(h: Heap, cur: Ref, before: seq<string>, seg: string)
    ensures Walk(h, cur, before + [seg]) == match Walk(h, cur, before)
                                          case None => None
                                          case Some(mid) => Step(h, mid, seg)
  {
    WalkAppend(h, cur, before, [seg]);
    match Walk(h, cur, before)
    case None =>
    case Some(mid) =>
      assert [seg][1..] == [];
  }

  /** A walk of one or more segments from a live object ends on a live object. */
  lemma {:induction false} WalkStaysLive(h: Heap, cur: Ref, segs: seq<string>)
    ensures h.Valid() && cur in h.objects && Walk(h, cur, segs).Some? ==> Walk(h, cur, segs).value in h.objects
    decreases |segs|
  {
    if h.Valid() && cur in h.objects && segs != [] {
      match Step(h, cur, segs[0])
      case None =>
      case Some(next) =>
        assert RefsIn(h.objects[cur], h.objects);
        WalkStaysLive(h, next, segs[1..]);
    }
  }

  /** An integer key is looked up as an item only: replacing the attributes of
      the object does not change the result. */
  lemma IntKeyIgnoresAttributes(h: Heap, n: int, obj: Ref, default: Ref, attrs: map<string, Ref>)
    requires obj in h.objects
    ensures Resolve(h, IntKey(n), obj, default)
            == Resolve(h.(objects := h.objects[obj := h.objects[obj].(attrs := attrs)]), IntKey(n), obj, default)
    ensures Resolve(h, IntKey(n), obj, default) == default <== IntKey(n) !in h.objects[obj].items
  {
  }

  /** A key that is neither an exact int nor an exact str resolves to `None`,
      which is never a fresh default. */
  lemma UnsupportedKeyIsNone(h: Heap, id: nat, obj: Ref, default: Ref)
    requires h.Valid() && default !in h.objects
    ensures Resolve(h, OtherKey(id), obj, default) == NoneRef != default
  {
  }

  /** With a default that no live object is, the default comes back exactly
      when the lookup fails. */
  lemma ResolveDefaultIffAbsent(h: Heap, key: Key, obj: Ref, default: Ref)
    requires h.Valid() && obj in h.objects && default !in h.objects
    ensures Resolve(h, key, obj, default) == default <==> LookupKey(h, key, obj) == Absent
  {
    match key
    case IntKey(_) =>
      assert RefsIn(h.objects[obj], h.objects);
    case StrKey(s) =>
      WalkStaysLive(h, obj, Split(s));
    case OtherKey(_) =>
  }

  /** Allocating a new object changes no lookup from a live object. */
  lemma {:induction false} AllocKeepsWalk(h: Heap, o: PyObject, cur: Ref, segs: seq<string>)
    requires h.Valid() && RefsIn(o, h.objects) && cur in h.objects
    ensures Walk(Alloc(h, o), cur, segs) == Walk(h, cur, segs)
    decreases |segs|
  {
    if segs != [] {
      var h' := Alloc(h, o);
      assert Step(h', cur, segs[0]) == Step(h, cur, segs[0]);
      match Step(h, cur, segs[0])
      case None =>
      case Some(next) =>
        assert RefsIn(h.objects[cur], h.objects);
        AllocKeepsWalk(h, o, next, segs[1..]);
    }
  }

  lemma AllocKeepsLookup(h: Heap, o: PyObject, key: Key, obj: Ref)
    requires h.Valid() && RefsIn(o, h.objects) && obj in h.objects
    ensures LookupKey(Alloc(h, o), key, obj) == LookupKey(h, key, obj)
  {
    if key.StrKey? {
      AllocKeepsWalk(h, o, obj, Split(key.s));
    }
  }

  // ---------------------------------------------------------------------
  // Marshalling (`marshal_one`, `marshaller_marshal`)
  // ---------------------------------------------------------------------

  /** The exception a `_serialize` call can raise: the validation error class
      passed in by the caller, or anything else. */
  datatype Exception = ValidationError | OtherError(name: string)

  datatype SerializeResult<V> = Serialized(value: V) | Raised(exc: Exception)

  /** An entry of the fields dict: its key and the field's bound `_serialize`,
      called as `_serialize(value, key, obj)`; the heap is what it can read. */
  datatype Field<V> = Field(key: Key, serialize: (Heap, Ref, Key, Ref) -> SerializeResult<V>)

  ghost predicate DistinctKeys<V>(fields: seq<Field<V>>) {
    forall i, j | 0 <= i < j < |fields| :: fields[i].key != fields[j].key
  }

  /** The call `marshal_one` makes for one field. */
  function SerializeField<V>(h: Heap, obj: Ref, sentinel: Ref, f: Field<V>): SerializeResult<V> {
    f.serialize(h, Resolve(h, f.key, obj, sentinel), f.key, obj)
  }

  /** The result dict after the fields, in the fields dict's order: a field
      whose `_serialize` raised, whatever it raised, writes nothing. */
  function MarshalFields<V>(h: Heap, obj: Ref, sentinel: Ref, fields: seq<Field<V>>): (r: seq<(Key, V)>)
    ensures |r| <= |fields|
    ensures (forall j | 0 <= j < |fields| :: SerializeField(h, obj, sentinel, fields[j]).Serialized?) ==> |r| == |fields|
    decreases |fields|
  {
    if fields == [] then []
    else
      var f := fields[|fields| - 1];
      var done := MarshalFields(h, obj, sentinel, fields[..|fields| - 1]);
      assert forall j | 0 <= j < |fields| - 1 :: fields[..|fields| - 1][j] == fields[j];
      match SerializeField(h, obj, sentinel, f)
      case Serialized(v) => done + [(f.key, v)]
      case Raised(_) => done
  }

  /** `marshal_one` on heap `h`: a new dict at `h.next` is the sentinel. */
  function MarshalOneSpec<V>(h: Heap, obj: Ref, fields: seq<Field<V>>): (r: seq<(Key, V)>)
    requires h.Valid()
    ensures |r| <= |fields|
    ensures (forall j | 0 <= j < |fields| :: SerializeField(Alloc(h, EmptyDict), obj, h.next, fields[j]).Serialized?) ==> |r| == |fields|
  {
    MarshalFields(Alloc(h, EmptyDict), obj, h.next, fields)
  }

  /** The output maps a key to a value exactly when some field with that key
      serialized to that value; nothing else is in it. */
  lemma {:induction false} MarshalFieldsContents<V>(h: Heap, obj: Ref, sentinel: Ref, fields: seq<Field<V>>, k: Key, v: V)
    ensures (k, v) in MarshalFields(h, obj, sentinel, fields)
            <==> exists j | 0 <= j < |fields| :: fields[j].key == k && SerializeField(h, obj, sentinel, fields[j]) == Serialized(v)
    decreases |fields|
  {
    if fields != [] {
      var init := fields[..|fields| - 1];
      MarshalFieldsContents(h, obj, sentinel, init, k, v);
      if (k, v) in MarshalFields(h, obj, sentinel, fields) && (k, v) !in MarshalFields(h, obj, sentinel, init) {
        assert fields[|fields| - 1].key == k;
      }
      forall j | 0 <= j < |fields| - 1
        ensures fields[j] == init[j]
      {
      }
    }
  }

  /** Every key in the output belongs to a field, and a field with a unique
      key occurs at most once, so the output is a well-formed dict. */
  lemma {:induction false} MarshalFieldsKeys<V>(h: Heap, obj: Ref, sentinel: Ref, fields: seq<Field<V>>)
    requires DistinctKeys(fields)
    ensures var out := MarshalFields(h, obj, sentinel, fields);
            && |out| <= |fields|
            && (forall i | 0 <= i < |out| :: exists j | 0 <= j < |fields| :: fields[j].key == out[i].0)
            && (forall i, j | 0 <= i < j < |out| :: out[i].0 != out[j].0)
    decreases |fields|
  {
    if fields != [] {
      var init := fields[..|fields| - 1];
      MarshalFieldsKeys(h, obj, sentinel, init);
      var out := MarshalFields(h, obj, sentinel, fields);
      var done := MarshalFields(h, obj, sentinel, init);
      forall i | 0 <= i < |done|
        ensures done[i].0 != fields[|fields| - 1].key
      {
        var j :| 0 <= j < |init| && init[j].key == done[i].0;
        assert init[j] == fields[j];
      }
      forall i | 0 <= i < |out|
        ensures exists j | 0 <= j < |fields| :: fields[j].key == out[i].0
      {
        if i < |done| {
          var j :| 0 <= j < |init| && init[j].key == done[i].0;
          assert fields[j] == init[j];
        } else {
          assert fields[|fields| - 1].key == out[i].0;
        }
      }
    }
  }

  /** A field whose key names nothing on the object receives the sentinel of
      its own `marshal_one` call, and a field whose key names something never
      does. */
  lemma AbsentFieldGetsSentinel<V>(h: Heap, obj: Ref, f: Field<V>)
    requires h.Valid() && obj in h.objects
    ensures var h' := Alloc(h, EmptyDict);
            Resolve(h', f.key, obj, h.next) == h.next <==> LookupKey(h, f.key, obj) == Absent
  {
    var h' := Alloc(h, EmptyDict);
    AllocKeepsLookup(h, EmptyDict, f.key, obj);
    ResolveDefaultIffAbsent(h, f.key, obj, h.next);
  }

  /** `marshal_one`: allocate the sentinel, then fill the result dict in the
      fields dict's order. */
  method MarshalOne<V>(h: Heap, obj: Ref, fields: seq<Field<V>>) returns (result: seq<(Key, V)>, h': Heap)
    requires h.Valid()
    ensures h' == Alloc(h, EmptyDict)
    ensures result == MarshalOneSpec(h, obj, fields)
  {
    h' := Alloc(h, EmptyDict);
    var sentinel := h.next;
    result := [];
    var pos := 0;
    while pos < |fields|
      invariant 0 <= pos <= |fields|
      invariant result == MarshalFields(h', obj, sentinel, fields[..pos])
    {
      var f := fields[pos];
      var value := GetValueFromObject(h', f.key, obj, sentinel);
      var serialized := f.serialize(h', value, f.key, obj);
      assert fields[..pos + 1][..pos] == fields[..pos];
      if serialized.Serialized? {
        result := result + [(f.key, serialized.value)];
      }
      pos := pos + 1;
    }
    assert fields[..pos] == fields;
  }

  /** The object argument of `marshal`: one object, or (with `many`) a list. */
  datatype Input = One(obj: Ref) | Many(objs: seq<Ref>)

  datatype Output<V> = Dict(entries: seq<(Key, V)>) | DictList(dicts: seq<seq<(Key, V)>>)

  /** `marshaller_marshal`: one dict per object, in input order, each from
      its own `marshal_one` call; the errors dict is always empty. */
  method Marshal<V>(h: Heap, input: Input, fields: seq<Field<V>>) returns (ret: Output<V>, errors: map<Key, V>, h': Heap)
    requires h.Valid()
    ensures errors == map[]
    ensures input.One? ==> ret == Dict(MarshalOneSpec(h, input.obj, fields)) && h' == AllocDicts(h, 1)
    ensures input.Many? ==> && ret.DictList?
                            && |ret.dicts| == |input.objs|
                            && (forall i | 0 <= i < |input.objs| ::
                                  ret.dicts[i] == MarshalOneSpec(AllocDicts(h, i), input.objs[i], fields))
                            && h' == AllocDicts(h, |input.objs|)
  {
    errors := map[];
    match input {
      case Many(objs) =>
        var dicts;
        dicts, h' := MarshalMany(h, objs, fields);
        ret := DictList(dicts);
      case One(obj) =>
        var d;
        d, h' := MarshalOne(h, obj, fields);
        ret := Dict(d);
    }
  }

  /** The `many` branch of `marshaller_marshal`: a list filled slot by slot
      with the dict of the object at the same position. */
  method MarshalMany<V>(h: Heap, objs: seq<Ref>, fields: seq<Field<V>>) returns (dicts: seq<seq<(Key, V)>>, h': Heap)
    requires h.Valid()
    ensures |dicts| == |objs|
    ensures forall i | 0 <= i < |objs| :: dicts[i] == MarshalOneSpec(AllocDicts(h, i), objs[i], fields)
    ensures h' == AllocDicts(h, |objs|)
  {
    var length := |objs|;
    ghost var expected := seq(length, i requires 0 <= i < length => MarshalOneSpec(AllocDicts(h, i), objs[i], fields));
    var list := new seq<(Key, V)>[length];
    h' := h;
    for index := 0 to length
      invariant h' == AllocDicts(h, index)
      invariant list[..index] == expected[..index]
    {
      var d;
      d, h' := MarshalOne(h', objs[index], fields);
      list[index] := d;
      assert list[..index + 1] == list[..index] + [d];
    }
    assert list[..] == list[..length];
    dicts := list[..];
  }
}
