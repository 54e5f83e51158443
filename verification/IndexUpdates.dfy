/**
 Filling a batch with the index entries a document gains and loses. The source walks Go maps,
 so the order of the writes is arbitrary.
 */
module IndexUpdates {
  import opened Bytes
  import opened KeyValue
  import opened Names
  import opened Catalog
  import Keys
  import V = IndexValue

  /** The key is the entry of this document for one of the values. */
  predicate Hits(k: Keys.Key, db: bytes, id: bytes, values: map<bytes, bytes>) {
    k.EntryKey? && k.db == db && k.id == id && Maps(values, k.index, k.value)
  }

  predicate ValidValues(values: map<bytes, bytes>) {
    forall name :: name in values ==> ValidName(name) && V.Valid(values[name])
  }

  /** A map lookup that yields nil for a missing key. */
  function Lookup(values: map<bytes, bytes>, name: bytes): bytes {
    if name in values then values[name] else []
  }

  lemma SetOne(batch: Batch, k: Keys.Key, record: Record)
    requires Keys.Valid(k)
    ensures forall j :: Keys.Valid(j) ==>
      EffectOn(batch + [Set(Keys.Encode(k), record)], j) == (if j == k then Some(Some(record)) else EffectOn(batch, j))
    ensures WritesKeys(batch) ==> WritesKeys(batch + [Set(Keys.Encode(k), record)])
  {
    var w := Set(Keys.Encode(k), record);
    forall j | Keys.Valid(j)
      ensures EffectOn(batch + [w], j) == (if j == k then Some(Some(record)) else EffectOn(batch, j))
    {
      EffectAppend(batch, w, Keys.Encode(j));
      if Keys.Encode(j) == Keys.Encode(k) { Keys.EncodeInjective(j, k); }
    }
    if WritesKeys(batch) {
      forall b | Effect(batch + [w], b).Some? && Effect(batch + [w], b).value.Some? ensures IsKey(b) {
        EffectAppend(batch, w, b);
      }
    }
  }

  lemma DeleteOne(batch: Batch, k: Keys.Key)
    requires Keys.Valid(k)
    ensures forall j :: Keys.Valid(j) ==>
      EffectOn(batch + [Delete(Keys.Encode(k))], j) == (if j == k then Some(None) else EffectOn(batch, j))
    ensures WritesKeys(batch) ==> WritesKeys(batch + [Delete(Keys.Encode(k))])
  {
    var w: Write<Record> := Delete(Keys.Encode(k));
    forall j | Keys.Valid(j)
      ensures EffectOn(batch + [w], j) == (if j == k then Some(None) else EffectOn(batch, j))
    {
      EffectAppend(batch, w, Keys.Encode(j));
      if Keys.Encode(j) == Keys.Encode(k) { Keys.EncodeInjective(j, k); }
    }
    if WritesKeys(batch) {
      forall b | Effect(batch + [w], b).Some? && Effect(batch + [w], b).value.Some? ensures IsKey(b) {
        EffectAppend(batch, w, b);
      }
    }
  }

  /** `out` does to entries of the document in `values` what `action` says, and to other keys what `batch` did. */
  ghost predicate Extends(batch: Batch, out: Batch, db: bytes, id: bytes, values: map<bytes, bytes>, action: Option<Record>) {
    && (WritesKeys(batch) ==> WritesKeys(out))
    && forall k :: Keys.Valid(k) ==>
         EffectOn(out, k) == (if Hits(k, db, id, values) then Some(action) else EffectOn(batch, k))
  }

  lemma ExtendsStep(batch: Batch, mid: Batch, out: Batch, db: bytes, id: bytes, done: map<bytes, bytes>,
                    name: bytes, value: bytes, action: Option<Record>)
    requires Extends(batch, mid, db, id, done, action) && name !in done
    requires WritesKeys(mid) ==> WritesKeys(out)
    requires forall k :: Keys.Valid(k) ==>
               EffectOn(out, k) == (if k == Keys.EntryKey(db, name, value, id) then Some(action) else EffectOn(mid, k))
    ensures Extends(batch, out, db, id, done[name := value], action)
  {
    forall k | Keys.Valid(k)
      ensures EffectOn(out, k) == (if Hits(k, db, id, done[name := value]) then Some(action) else EffectOn(batch, k))
    {
      assert Hits(k, db, id, done[name := value]) <==> Hits(k, db, id, done) || k == Keys.EntryKey(db, name, value, id);
    }
  }

  /** One entry set on top of the others. */
  lemma SetEntry(batch: Batch, out: Batch, db: bytes, id: bytes, done: map<bytes, bytes>, name: bytes, value: bytes)
    requires Extends(batch, out, db, id, done, Some(Marker)) && name !in done && Keys.Valid(Keys.EntryKey(db, name, value, id))
    ensures Extends(batch, out + [Set(Keys.Encode(Keys.EntryKey(db, name, value, id)), Marker)], db, id, done[name := value], Some(Marker))
  {
    var k := Keys.EntryKey(db, name, value, id);
    SetOne(out, k, Marker);
    ExtendsStep(batch, out, out + [Set(Keys.Encode(k), Marker)], db, id, done, name, value, Some(Marker));
  }

  lemma DeleteEntry(batch: Batch, out: Batch, db: bytes, id: bytes, done: map<bytes, bytes>, name: bytes, value: bytes)
    requires Extends(batch, out, db, id, done, None) && name !in done && Keys.Valid(Keys.EntryKey(db, name, value, id))
    ensures Extends(batch, out + [Delete(Keys.Encode(Keys.EntryKey(db, name, value, id)))], db, id, done[name := value], None)
  {
    var k := Keys.EntryKey(db, name, value, id);
    DeleteOne(out, k);
    ExtendsStep(batch, out, out + [Delete(Keys.Encode(k))], db, id, done, name, value, None);
  }

  /** The values whose turn has come, of those that `other` does not have. */
  function Done(values: map<bytes, bytes>, other: map<bytes, bytes>, names: set<bytes>): map<bytes, bytes> {
    map n | n in values && n !in names && values[n] != Lookup(other, n) :: values[n]
  }

  lemma DoneNext(values: map<bytes, bytes>, other: map<bytes, bytes>, names: set<bytes>, name: bytes)
    requires name in names && name in values
    ensures name !in Done(values, other, names)
    ensures Done(values, other, names - {name}) ==
            if values[name] != Lookup(other, name) then Done(values, other, names)[name := values[name]] else Done(values, other, names)
  {
  }

  /** `setIndexEntries` */
  method SetIndexEntries(batch: Batch, db: bytes, id: bytes, values: map<bytes, bytes>) returns (out: Batch)
    requires ValidName(db) && ValidId(id) && ValidValues(values)
    ensures Extends(batch, out, db, id, values, Some(Marker))
  {
    out := batch;
    var names := values.Keys;
    ghost var done: map<bytes, bytes> := map[];
    while names != {}
      invariant names <= values.Keys
      invariant done == map n | n in values && n !in names :: values[n]
      invariant Extends(batch, out, db, id, done, Some(Marker))
      decreases |names|
    {
      var name :| name in names;
      var k := Keys.EntryKey(db, name, values[name], id);
      SetEntry(batch, out, db, id, done, name, values[name]);
      out := out + [Set(Keys.Encode(k), Marker)];
      names := names - {name};
      done := done[name := values[name]];
    }
    assert done == values;
  }

  /** `deleteIndexEntries` */
  method DeleteIndexEntries(batch: Batch, db: bytes, id: bytes, values: map<bytes, bytes>) returns (out: Batch)
    requires ValidName(db) && ValidId(id) && ValidValues(values)
    ensures Extends(batch, out, db, id, values, None)
  {
    out := batch;
    var names := values.Keys;
    ghost var done: map<bytes, bytes> := map[];
    while names != {}
      invariant names <= values.Keys
      invariant done == map n | n in values && n !in names :: values[n]
      invariant Extends(batch, out, db, id, done, None)
      decreases |names|
    {
      var name :| name in names;
      var k := Keys.EntryKey(db, name, values[name], id);
      DeleteEntry(batch, out, db, id, done, name, values[name]);
      out := out + [Delete(Keys.Encode(k))];
      names := names - {name};
      done := done[name := values[name]];
    }
    assert done == values;
  }

  /** The entries of `values` that `other` does not have. Values are never empty, so nil is no match. */
  function Changed(values: map<bytes, bytes>, other: map<bytes, bytes>): map<bytes, bytes> {
    map name | name in values && values[name] != Lookup(other, name) :: values[name]
  }

  lemma ChangedMaps(values: map<bytes, bytes>, other: map<bytes, bytes>, name: bytes, value: bytes)
    requires ValidValues(values)
    ensures Maps(Changed(values, other), name, value) <==> Maps(values, name, value) && !Maps(other, name, value)
  {
    if Maps(values, name, value) { assert V.Valid(values[name]); }
  }

  /** What `changeIndexEntries` does to each key. */
  ghost predicate ChangesEntries(batch: Batch, out: Batch, db: bytes, id: bytes, prev: map<bytes, bytes>, next: map<bytes, bytes>) {
    && (WritesKeys(batch) ==> WritesKeys(out))
    && forall k :: Keys.Valid(k) ==>
         EffectOn(out, k) ==
         (if k.EntryKey? && k.db == db && k.id == id && Maps(prev, k.index, k.value) != Maps(next, k.index, k.value)
          then Some(if Maps(next, k.index, k.value) then Some(Marker) else None)
          else EffectOn(batch, k))
  }

  method ChangeIndexEntries(batch: Batch, db: bytes, id: bytes, prev: map<bytes, bytes>, next: map<bytes, bytes>)
    returns (out: Batch)
    requires ValidName(db) && ValidId(id) && ValidValues(prev) && ValidValues(next)
    ensures ChangesEntries(batch, out, db, id, prev, next)
  {
    var removed := DeleteChanged(batch, db, id, prev, next);
    out := SetChanged(removed, db, id, next, prev);
    ChangesCombine(batch, removed, out, db, id, prev, next);
  }

  lemma ChangesCombine(batch: Batch, removed: Batch, out: Batch, db: bytes, id: bytes, prev: map<bytes, bytes>, next: map<bytes, bytes>)
    requires ValidValues(prev) && ValidValues(next)
    requires Extends(batch, removed, db, id, Changed(prev, next), None)
    requires Extends(removed, out, db, id, Changed(next, prev), Some(Marker))
    ensures ChangesEntries(batch, out, db, id, prev, next)
  {
    forall k | Keys.Valid(k)
      ensures EffectOn(out, k) ==
         (if k.EntryKey? && k.db == db && k.id == id && Maps(prev, k.index, k.value) != Maps(next, k.index, k.value)
          then Some(if Maps(next, k.index, k.value) then Some(Marker) else None)
          else EffectOn(batch, k))
    {
      if k.EntryKey? {
        ChangedMaps(prev, next, k.index, k.value);
        ChangedMaps(next, prev, k.index, k.value);
      }
    }
  }

  /** The first loop of `changeIndexEntries`. */
  method DeleteChanged(batch: Batch, db: bytes, id: bytes, values: map<bytes, bytes>, other: map<bytes, bytes>) returns (out: Batch)
    requires ValidName(db) && ValidId(id) && ValidValues(values)
    ensures Extends(batch, out, db, id, Changed(values, other), None)
  {
    out := batch;
    var names := values.Keys;
    assert Done(values, other, names) == map[];
    while names != {}
      invariant names <= values.Keys
      invariant Extends(batch, out, db, id, Done(values, other, names), None)
      decreases |names|
    {
      var name :| name in names;
      var value := values[name];
      DoneNext(values, other, names, name);
      if value != Lookup(other, name) {
        var k := Keys.EntryKey(db, name, value, id);
        DeleteEntry(batch, out, db, id, Done(values, other, names), name, value);
        out := out + [Delete(Keys.Encode(k))];
      }
      names := names - {name};
    }
    assert Done(values, other, {}) == Changed(values, other);
  }

  /** The second loop of `changeIndexEntries`. */
  method SetChanged(batch: Batch, db: bytes, id: bytes, values: map<bytes, bytes>, other: map<bytes, bytes>) returns (out: Batch)
    requires ValidName(db) && ValidId(id) && ValidValues(values)
    ensures Extends(batch, out, db, id, Changed(values, other), Some(Marker))
  {
    out := batch;
    var names := values.Keys;
    assert Done(values, other, names) == map[];
    while names != {}
      invariant names <= values.Keys
      invariant Extends(batch, out, db, id, Done(values, other, names), Some(Marker))
      decreases |names|
    {
      var name :| name in names;
      var value := values[name];
      DoneNext(values, other, names, name);
      if value != Lookup(other, name) {
        var k := Keys.EntryKey(db, name, value, id);
        SetEntry(batch, out, db, id, Done(values, other, names), name, value);
        out := out + [Set(Keys.Encode(k), Marker)];
      }
      names := names - {name};
    }
    assert Done(values, other, {}) == Changed(values, other);
  }
}
