/** `generate_encoders_by_class_tuples` and the primitive, Enum, dict and
    list branches of `jsonable_encoder` (twitterscraper/utils.py). */
module Encoders {
  import opened Wrappers
  import opened Strings

  // ---------------------------------------------------------------------
  // generate_encoders_by_class_tuples

  /** The types, in insertion order, that `typeEncoders` maps to `enc`. */
  function TypesFor<T, E(==)>(typeEncoders: seq<(T, E)>, enc: E): seq<T> {
    if typeEncoders == [] then []
    else
      var last := typeEncoders[|typeEncoders| - 1];
      TypesFor(typeEncoders[..|typeEncoders| - 1], enc) + (if last.1 == enc then [last.0] else [])
  }

  function Encoders<T, E>(typeEncoders: seq<(T, E)>): set<E> {
    set i | 0 <= i < |typeEncoders| :: typeEncoders[i].1
  }

  /** Groups the (type, encoder) items of a dict by encoder: each encoder
      maps to the tuple of its types, in the order the items come. */
  method GenerateEncodersByClassTuples<T, E(==)>(typeEncoders: seq<(T, E)>)
    returns (byEncoder: map<E, seq<T>>)
    ensures byEncoder.Keys == Encoders(typeEncoders)
    ensures forall e | e in byEncoder :: byEncoder[e] == TypesFor(typeEncoders, e)
  {
    byEncoder := map[];
    var i := 0;
    while i < |typeEncoders|
      invariant 0 <= i <= |typeEncoders|
      invariant byEncoder.Keys == Encoders(typeEncoders[..i])
      invariant forall e | e in byEncoder :: byEncoder[e] == TypesFor(typeEncoders[..i], e)
    {
      var (ty, enc) := typeEncoders[i];
      var before := if enc in byEncoder then byEncoder[enc] else [];
      byEncoder := byEncoder[enc := before + [ty]];
      assert typeEncoders[..i + 1][..i] == typeEncoders[..i];
      forall e | e !in Encoders(typeEncoders[..i]) && e != enc
        ensures TypesFor(typeEncoders[..i + 1], e) == []
      {
        TypesForAbsent(typeEncoders[..i + 1], e);
      }
      if enc !in Encoders(typeEncoders[..i]) { TypesForAbsent(typeEncoders[..i], enc); }
      assert Encoders(typeEncoders[..i + 1]) == Encoders(typeEncoders[..i]) + {enc} by {
        forall x | x in Encoders(typeEncoders[..i + 1]) ensures x in Encoders(typeEncoders[..i]) + {enc} {
          var j :| 0 <= j < i + 1 && typeEncoders[..i + 1][j].1 == x;
          if j < i { assert typeEncoders[..i][j].1 == x; }
        }
        forall x | x in Encoders(typeEncoders[..i]) ensures x in Encoders(typeEncoders[..i + 1]) {
          var j :| 0 <= j < i && typeEncoders[..i][j].1 == x;
          assert typeEncoders[..i + 1][j].1 == x;
        }
        assert typeEncoders[..i + 1][i].1 == enc;
      }
      i := i + 1;
    }
    assert typeEncoders[..i] == typeEncoders;
  }

  lemma {:induction false} TypesForAbsent<T, E>(typeEncoders: seq<(T, E)>, enc: E)
    requires enc !in Encoders(typeEncoders)
    ensures TypesFor(typeEncoders, enc) == []
  {
    if typeEncoders != [] {
      var init := typeEncoders[..|typeEncoders| - 1];
      assert forall j | 0 <= j < |init| :: init[j] == typeEncoders[j];
      TypesForAbsent(init, enc);
    }
  }

  /** No type is lost: the k-th item's type is in its encoder's tuple. */
  lemma {:induction false} NoTypeLost<T, E>(typeEncoders: seq<(T, E)>, k: nat)
    requires k < |typeEncoders|
    ensures typeEncoders[k].0 in TypesFor(typeEncoders, typeEncoders[k].1)
  {
    var init := typeEncoders[..|typeEncoders| - 1];
    if k < |typeEncoders| - 1 {
      assert init[k] == typeEncoders[k];
      NoTypeLost(init, k);
    }
  }

  /** Every item lands in exactly one tuple: the tuple lengths add up to the
      number of items. */
  lemma {:induction false} TupleLengths<T, E>(typeEncoders: seq<(T, E)>, e1: E, e2: E)
    requires e1 != e2
    ensures |TypesFor(typeEncoders, e1)| + |TypesFor(typeEncoders, e2)| <= |typeEncoders|
  {
    if typeEncoders != [] {
      TupleLengths(typeEncoders[..|typeEncoders| - 1], e1, e2);
    }
  }

  // ---------------------------------------------------------------------
  // jsonable_encoder

  /** The Python values the modelled branches handle. `PyEnum` is an Enum
      member with its `.value`; `PyDict` keeps insertion order; `PyObject`
      stands for every other type. */
  datatype PyValue =
    | PyNone
    | PyBool(b: bool)
    | PyInt(i: int)
    | PyStr(s: string)
    | PyEnum(value: PyValue)
    | PyDict(entries: seq<(PyValue, PyValue)>)
    | PyList(elems: seq<PyValue>)
    | PyObject(typeName: string)

  /** Raised for values outside the modelled branches. */
  datatype EncodeError = Unsupported(typeName: string)

  /** The keyword arguments that matter in these branches: `include`,
      `exclude` (None or a set of keys), `exclude_none`, `sqlalchemy_safe`. */
  datatype EncodeOptions = EncodeOptions(
    includeKeys: Option<set<PyValue>>,
    excludeKeys: Option<set<PyValue>>,
    excludeNone: bool,
    sqlalchemySafe: bool)
  {
    /** Keys and values of a dict are encoded without `include`/`exclude`. */
    function ForEntries(): EncodeOptions {
      EncodeOptions(None, None, excludeNone, sqlalchemySafe)
    }
  }

  function DefaultOptions(): EncodeOptions {
    EncodeOptions(None, None, false, true)
  }

  /** A key survives when it is in `keys ∩ include − exclude`, its value is
      not None under `exclude_none`, and it is not a "_sa…" string under
      `sqlalchemy_safe`. */
  predicate KeepEntry(key: PyValue, value: PyValue, opts: EncodeOptions) {
    (!opts.sqlalchemySafe || !key.PyStr? || !StartsWith(key.s, "_sa"))
    && (value != PyNone || !opts.excludeNone)
    && (opts.includeKeys.None? || key in opts.includeKeys.value)
    && (opts.excludeKeys.None? || key !in opts.excludeKeys.value)
  }

  predicate HasKey(d: seq<(PyValue, PyValue)>, key: PyValue) {
    exists i | 0 <= i < |d| :: d[i].0 == key
  }

  lemma HasKeyCons(x: (PyValue, PyValue), rest: seq<(PyValue, PyValue)>, k: PyValue)
    ensures HasKey([x] + rest, k) <==> x.0 == k || HasKey(rest, k)
  {
    var r := [x] + rest;
    assert r[0] == x;
    if HasKey(r, k) && x.0 != k {
      var i :| 0 <= i < |r| && r[i].0 == k;
      assert rest[i - 1].0 == k;
    }
    if HasKey(rest, k) {
      var i :| 0 <= i < |rest| && rest[i].0 == k;
      assert r[i + 1].0 == k;
    }
  }

  /** `d[key] = value` on an insertion-ordered dict: an existing key keeps
      its place, a new one goes last. */
  function DictSet(d: seq<(PyValue, PyValue)>, key: PyValue, value: PyValue): (r: seq<(PyValue, PyValue)>)
    ensures forall k :: HasKey(r, k) <==> HasKey(d, k) || k == key
  {
    if d == [] then
      assert forall k :: HasKey([(key, value)], k) <==> k == key by {
        assert [(key, value)] + [] == [(key, value)];
        forall k ensures HasKey([(key, value)], k) <==> k == key { HasKeyCons((key, value), [], k); }
      }
      [(key, value)]
    else
      assert d == [d[0]] + d[1..];
      var rest := if d[0].0 == key then d[1..] else DictSet(d[1..], key, value);
      var head := if d[0].0 == key then (key, value) else d[0];
      assert forall k :: HasKey(d, k) <==> d[0].0 == k || HasKey(d[1..], k) by {
        forall k { HasKeyCons(d[0], d[1..], k); }
      }
      assert forall k :: HasKey([head] + rest, k) <==> head.0 == k || HasKey(rest, k) by {
        forall k { HasKeyCons(head, rest, k); }
      }
      [head] + rest
  }

  /** The encoding `jsonable_encoder(obj, …)` returns, or the error. */
  function Encode(obj: PyValue, opts: EncodeOptions): Result<PyValue, EncodeError>
    decreases obj, 1, 0
  {
    match obj
    case PyEnum(v) => Ok(v)
    case PyNone => Ok(obj)
    case PyBool(_) => Ok(obj)
    case PyInt(_) => Ok(obj)
    case PyStr(_) => Ok(obj)
    case PyDict(entries) =>
      (match EncodeEntries(obj, |entries|, opts)
       case Ok(d) => Ok(PyDict(d))
       case Err(e) => Err(e))
    case PyList(elems) =>
      (match EncodeElems(obj, |elems|, opts)
       case Ok(l) => Ok(PyList(l))
       case Err(e) => Err(e))
    case PyObject(name) => Err(Unsupported(name))
  }

  /** The encoded dict after the first `n` entries of `obj`. */
  function EncodeEntries(obj: PyValue, n: nat, opts: EncodeOptions): Result<seq<(PyValue, PyValue)>, EncodeError>
    requires obj.PyDict? && n <= |obj.entries|
    decreases obj, 0, n
  {
    if n == 0 then Ok([])
    else
      match EncodeEntries(obj, n - 1, opts)
      case Err(e) => Err(e)
      case Ok(d) =>
        var (key, value) := obj.entries[n - 1];
        if !KeepEntry(key, value, opts) then Ok(d)
        else
          match Encode(key, opts.ForEntries())
          case Err(e) => Err(e)
          case Ok(k) =>
            match Encode(value, opts.ForEntries())
            case Err(e) => Err(e)
            case Ok(v) => Ok(DictSet(d, k, v))
  }

  /** The encoded list after the first `n` elements of `obj`. */
  function EncodeElems(obj: PyValue, n: nat, opts: EncodeOptions): Result<seq<PyValue>, EncodeError>
    requires obj.PyList? && n <= |obj.elems|
    decreases obj, 0, n
  {
    if n == 0 then Ok([])
    else
      match EncodeElems(obj, n - 1, opts)
      case Err(e) => Err(e)
      case Ok(l) =>
        match Encode(obj.elems[n - 1], opts)
        case Err(e) => Err(e)
        case Ok(v) => Ok(l + [v])
  }

  /** Once an entry fails to encode, the whole dict fails with its error. */
  lemma {:induction false} EntriesErrPersists(obj: PyValue, i: nat, n: nat, opts: EncodeOptions)
    requires obj.PyDict? && i <= n <= |obj.entries|
    requires EncodeEntries(obj, i, opts).Err?
    ensures EncodeEntries(obj, n, opts) == EncodeEntries(obj, i, opts)
    decreases n
  {
    if n > i { EntriesErrPersists(obj, i, n - 1, opts); }
  }

  lemma {:induction false} ElemsErrPersists(obj: PyValue, i: nat, n: nat, opts: EncodeOptions)
    requires obj.PyList? && i <= n <= |obj.elems|
    requires EncodeElems(obj, i, opts).Err?
    ensures EncodeElems(obj, n, opts) == EncodeElems(obj, i, opts)
    decreases n
  {
    if n > i { ElemsErrPersists(obj, i, n - 1, opts); }
  }

  /** `jsonable_encoder` restricted to its primitive, Enum, dict and list
      branches: the dict and list are filled in loops, as in the source. */
  method JsonableEncoder(obj: PyValue, opts: EncodeOptions) returns (r: Result<PyValue, EncodeError>)
    ensures r == Encode(obj, opts)
    decreases obj
  {
    match obj {
      case PyEnum(v) => r := Ok(v);
      case PyNone => r := Ok(obj);
      case PyBool(_) => r := Ok(obj);
      case PyInt(_) => r := Ok(obj);
      case PyStr(_) => r := Ok(obj);
      case PyObject(name) => r := Err(Unsupported(name));
      case PyDict(entries) =>
        var encoded: seq<(PyValue, PyValue)> := [];
        var i := 0;
        while i < |entries|
          invariant 0 <= i <= |entries|
          invariant EncodeEntries(obj, i, opts) == Ok(encoded)
        {
          var (key, value) := entries[i];
          if KeepEntry(key, value, opts) {
            var k := JsonableEncoder(key, opts.ForEntries());
            if k.Err? {
              EntriesErrPersists(obj, i + 1, |entries|, opts);
              return Err(k.error);
            }
            var v := JsonableEncoder(value, opts.ForEntries());
            if v.Err? {
              EntriesErrPersists(obj, i + 1, |entries|, opts);
              return Err(v.error);
            }
            encoded := DictSet(encoded, k.value, v.value);
          }
          i := i + 1;
        }
        r := Ok(PyDict(encoded));
      case PyList(elems) =>
        var encoded: seq<PyValue> := [];
        var i := 0;
        while i < |elems|
          invariant 0 <= i <= |elems|
          invariant EncodeElems(obj, i, opts) == Ok(encoded)
        {
          var v := JsonableEncoder(elems[i], opts);
          if v.Err? {
            ElemsErrPersists(obj, i + 1, |elems|, opts);
            return Err(v.error);
          }
          encoded := encoded + [v.value];
          i := i + 1;
        }
        r := Ok(PyList(encoded));
    }
  }

  /** str, int, bool and None come back unchanged; an Enum gives its value. */
  lemma PrimitivesUnchanged(obj: PyValue, opts: EncodeOptions)
    requires obj.PyNone? || obj.PyBool? || obj.PyInt? || obj.PyStr?
    ensures Encode(obj, opts) == Ok(obj)
    ensures Encode(PyEnum(obj), opts) == Ok(obj)
  {
  }

  /** A key that encodes to itself. */
  predicate PlainKey(k: PyValue) {
    k.PyNone? || k.PyBool? || k.PyInt? || k.PyStr?
  }

  lemma {:induction false} EncodeEntriesKeys(obj: PyValue, n: nat, opts: EncodeOptions, k: PyValue)
    requires obj.PyDict? && n <= |obj.entries|
    requires forall i | 0 <= i < |obj.entries| :: PlainKey(obj.entries[i].0)
    requires EncodeEntries(obj, n, opts).Ok?
    ensures HasKey(EncodeEntries(obj, n, opts).value, k) <==>
      exists i | 0 <= i < n :: obj.entries[i].0 == k && KeepEntry(obj.entries[i].0, obj.entries[i].1, opts)
  {
    if n > 0 {
      EncodeEntriesKeys(obj, n - 1, opts, k);
      var (key, value) := obj.entries[n - 1];
      if KeepEntry(key, value, opts) {
        PrimitivesUnchanged(key, opts.ForEntries());
      }
      if HasKey(EncodeEntries(obj, n, opts).value, k) {
        if k == key && KeepEntry(key, value, opts) {
        } else {
          var i :| 0 <= i < n - 1 && obj.entries[i].0 == k && KeepEntry(obj.entries[i].0, obj.entries[i].1, opts);
        }
      }
      if exists i | 0 <= i < n :: obj.entries[i].0 == k && KeepEntry(obj.entries[i].0, obj.entries[i].1, opts) {
        var i :| 0 <= i < n && obj.entries[i].0 == k && KeepEntry(obj.entries[i].0, obj.entries[i].1, opts);
        if i < n - 1 {
          assert HasKey(EncodeEntries(obj, n - 1, opts).value, k);
        }
      }
    }
  }

  /** A dict with str/int/bool/None keys keeps exactly the keys that are in
      `include` (when given), not in `exclude` (when given), whose value is
      not None under `exclude_none`, and that do not start with "_sa" under
      `sqlalchemy_safe`. */
  lemma DictKeepsKeyIff(entries: seq<(PyValue, PyValue)>, opts: EncodeOptions, k: PyValue)
    requires forall i | 0 <= i < |entries| :: PlainKey(entries[i].0)
    requires Encode(PyDict(entries), opts).Ok?
    ensures Encode(PyDict(entries), opts).value.PyDict?
    ensures HasKey(Encode(PyDict(entries), opts).value.entries, k) <==>
      exists i | 0 <= i < |entries| :: entries[i].0 == k && KeepEntry(entries[i].0, entries[i].1, opts)
  {
    EncodeEntriesKeys(PyDict(entries), |entries|, opts, k);
  }

  lemma {:induction false} EncodeElemsPointwise(obj: PyValue, n: nat, opts: EncodeOptions)
    requires obj.PyList? && n <= |obj.elems|
    ensures EncodeElems(obj, n, opts).Ok? <==> forall i | 0 <= i < n :: Encode(obj.elems[i], opts).Ok?
    ensures EncodeElems(obj, n, opts).Ok? ==>
      |EncodeElems(obj, n, opts).value| == n
      && forall i | 0 <= i < n :: EncodeElems(obj, n, opts).value[i] == Encode(obj.elems[i], opts).value
  {
    if n > 0 {
      EncodeElemsPointwise(obj, n - 1, opts);
    }
  }

  /** A list is encoded element by element: it succeeds iff every element
      does, and then keeps the length and the order. */
  lemma ListEncodedElementwise(elems: seq<PyValue>, opts: EncodeOptions)
    ensures Encode(PyList(elems), opts).Ok? <==> forall i | 0 <= i < |elems| :: Encode(elems[i], opts).Ok?
    ensures Encode(PyList(elems), opts).Ok? ==>
      var r := Encode(PyList(elems), opts).value;
      r.PyList? && |r.elems| == |elems|
      && forall i | 0 <= i < |elems| :: r.elems[i] == Encode(elems[i], opts).value
  {
    EncodeElemsPointwise(PyList(elems), |elems|, opts);
  }

  /** With the defaults, a "_sa…" key is dropped and a plain key is kept. */
  lemma SqlalchemyStateDropped()
    ensures Encode(PyDict([(PyStr("_sa_instance_state"), PyInt(1)), (PyStr("id"), PyInt(2))]), DefaultOptions())
      == Ok(PyDict([(PyStr("id"), PyInt(2))]))
  {
    var obj := PyDict([(PyStr("_sa_instance_state"), PyInt(1)), (PyStr("id"), PyInt(2))]);
    assert StartsWith("_sa_instance_state", "_sa");
    assert !StartsWith("id", "_sa");
    assert EncodeEntries(obj, 1, DefaultOptions()) == Ok([]);
  }

  /** Setting a key the dict does not hold appends it. */
  lemma {:induction false} DictSetNewKey(d: seq<(PyValue, PyValue)>, key: PyValue, value: PyValue)
    requires !HasKey(d, key)
    ensures DictSet(d, key, value) == d + [(key, value)]
  {
    if d != [] {
      HasKeyCons(d[0], d[1..], key);
      assert d == [d[0]] + d[1..];
      DictSetNewKey(d[1..], key, value);
    }
  }

  /** The first `n` entries of a flat dict (plain keys, distinct, all kept,
      primitive values) encode to themselves. */
  lemma {:induction false} FlatEntriesUnchanged(obj: PyValue, n: nat, opts: EncodeOptions)
    requires obj.PyDict? && n <= |obj.entries|
    requires forall i | 0 <= i < |obj.entries| :: PlainKey(obj.entries[i].0) && PlainKey(obj.entries[i].1)
    requires forall i | 0 <= i < |obj.entries| :: KeepEntry(obj.entries[i].0, obj.entries[i].1, opts)
    requires forall i, j | 0 <= i < j < |obj.entries| :: obj.entries[i].0 != obj.entries[j].0
    ensures EncodeEntries(obj, n, opts) == Ok(obj.entries[..n])
  {
    if n > 0 {
      FlatEntriesUnchanged(obj, n - 1, opts);
      var (key, value) := obj.entries[n - 1];
      PrimitivesUnchanged(key, opts.ForEntries());
      PrimitivesUnchanged(value, opts.ForEntries());
      assert !HasKey(obj.entries[..n - 1], key);
      DictSetNewKey(obj.entries[..n - 1], key, value);
      assert obj.entries[..n] == obj.entries[..n - 1] + [(key, value)];
    }
  }

  /** A dict whose keys and values are str, int, bool or None, whose keys
      are distinct and none of which the options drop, is returned as it
      is. */
  lemma FlatDictUnchanged(entries: seq<(PyValue, PyValue)>, opts: EncodeOptions)
    requires forall i | 0 <= i < |entries| :: PlainKey(entries[i].0) && PlainKey(entries[i].1)
    requires forall i | 0 <= i < |entries| :: KeepEntry(entries[i].0, entries[i].1, opts)
    requires forall i, j | 0 <= i < j < |entries| :: entries[i].0 != entries[j].0
    ensures Encode(PyDict(entries), opts) == Ok(PyDict(entries))
  {
    FlatEntriesUnchanged(PyDict(entries), |entries|, opts);
    assert entries[..|entries|] == entries;
  }
}
