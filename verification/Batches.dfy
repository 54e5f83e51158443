/**
 For everything a thread can have read there is a batch to commit: what the engine fills in loops, built by recursion.
 */
module Batches {
  import opened Bytes
  import opened Json
  import opened KeyValue
  import opened Names
  import opened Catalog
  import opened Definitions
  import opened IndexUpdates
  import opened Operations
  import opened Engine
  import Keys

  lemma {:induction false} SetAll(batch: Batch, db: bytes, id: bytes, values: map<bytes, bytes>) returns (out: Batch)
    requires ValidName(db) && ValidId(id) && ValidValues(values)
    ensures Extends(batch, out, db, id, values, Some(Marker))
    decreases values
  {
    out := batch;
    if values != map[] {
      var name :| name in values;
      var rest := values - {name};
      out := SetAll(batch, db, id, rest);
      SetEntry(batch, out, db, id, rest, name, values[name]);
      assert rest[name := values[name]] == values;
      out := out + [Set(Keys.Encode(Keys.EntryKey(db, name, values[name], id)), Marker)];
    }
  }

  lemma {:induction false} DeleteAll(batch: Batch, db: bytes, id: bytes, values: map<bytes, bytes>) returns (out: Batch)
    requires ValidName(db) && ValidId(id) && ValidValues(values)
    ensures Extends(batch, out, db, id, values, None)
    decreases values
  {
    out := batch;
    if values != map[] {
      var name :| name in values;
      var rest := values - {name};
      out := DeleteAll(batch, db, id, rest);
      DeleteEntry(batch, out, db, id, rest, name, values[name]);
      assert rest[name := values[name]] == values;
      out := out + [Delete(Keys.Encode(Keys.EntryKey(db, name, values[name], id)))];
    }
  }

  lemma PutExists(db: bytes, id: bytes, key: SecretKey, defs: Defs, doc: Doc) returns (batch: Batch)
    requires ValidName(db) && ValidId(id) && ValidDefs(defs)
    ensures PutsOne(batch, db, id, key, defs, doc)
  {
    var k := Keys.DocKey(db, id);
    var record := DocRecord(key, Keys.Encode(k), doc);
    EntriesValid(doc.json, defs);
    SetAlone(k, record);
    batch := SetAll([Set(Keys.Encode(k), record)], db, id, Entries(doc.json, defs));
    PutsWhole([Set(Keys.Encode(k), record)], batch, db, id, key, doc, Entries(doc.json, defs));
  }

  lemma ChangeExists(db: bytes, id: bytes, key: SecretKey, defs: Defs, current: Json, doc: Doc) returns (batch: Batch)
    requires ValidName(db) && ValidId(id) && ValidDefs(defs)
    ensures UpdatesDoc(batch, db, id, key, Entries(current, defs), Entries(doc.json, defs), Some(doc))
  {
    var k := Keys.DocKey(db, id);
    var record := DocRecord(key, Keys.Encode(k), doc);
    var prev, next := Entries(current, defs), Entries(doc.json, defs);
    EntriesValid(current, defs);
    EntriesValid(doc.json, defs);
    SetAlone(k, record);
    var first := [Set(Keys.Encode(k), record)];
    var removed := DeleteAll(first, db, id, IndexUpdates.Changed(prev, next));
    batch := SetAll(removed, db, id, IndexUpdates.Changed(next, prev));
    ChangesCombine(first, removed, batch, db, id, prev, next);
    ChangesWhole(first, batch, db, id, key, doc, prev, next);
  }

  lemma ChangesWhole(first: Batch, batch: Batch, db: bytes, id: bytes, key: SecretKey, doc: Doc,
                     prev: map<bytes, bytes>, next: map<bytes, bytes>)
    requires WritesKeys(first) && ChangesEntries(first, batch, db, id, prev, next)
    requires forall j :: Keys.Valid(j) ==>
               EffectOn(first, j) == if j == Keys.DocKey(db, id) then Some(Some(DocRecord(key, Keys.Encode(j), doc))) else None
    ensures UpdatesDoc(batch, db, id, key, prev, next, Some(doc))
  {
  }

  lemma RemoveExists(db: bytes, id: bytes, key: SecretKey, defs: Defs, current: Json) returns (batch: Batch)
    requires ValidName(db) && ValidId(id) && ValidDefs(defs)
    ensures UpdatesDoc(batch, db, id, key, Entries(current, defs), map[], None)
  {
    var k := Keys.DocKey(db, id);
    EntriesValid(current, defs);
    DeleteAlone(k);
    batch := DeleteAll([Delete(Keys.Encode(k))], db, id, Entries(current, defs));
    RemovesWhole([Delete(Keys.Encode(k))], batch, db, id, key, Entries(current, defs));
  }

  lemma {:induction false} CreateExists(db: bytes, key: SecretKey, defs: seq<IndexDef>) returns (batch: Batch)
    requires ValidName(db) && forall i :: 0 <= i < |defs| ==> ValidDef(defs[i])
    ensures CreatesDb(batch, db, key, DefMap(defs))
    decreases |defs|
  {
    if defs == [] {
      batch := [Set(Keys.Encode(Keys.DbKey(db)), DbRecord(key))];
      SetAlone(Keys.DbKey(db), DbRecord(key));
    } else {
      var n := |defs| - 1;
      var before := CreateExists(db, key, defs[..n]);
      CreateStep(before, db, key, defs[..n], defs[n]);
      assert defs == defs[..n] + [defs[n]];
      batch := before + [Set(Keys.Encode(Keys.DefKey(db, defs[n].name)), DefRecord(defs[n].path))];
    }
  }

  lemma {:induction false} ImportExists(db: bytes, key: SecretKey, defs: Defs, ids: seq<bytes>, documents: seq<Json>, revs: seq<Revision>)
    returns (parts: seq<Batch>)
    requires ValidName(db) && ValidDefs(defs) && |ids| == |documents| == |revs| && forall i :: 0 <= i < |ids| ==> ValidId(ids[i])
    ensures PutsAll(parts, db, key, defs, ids, documents, revs)
    decreases |ids|
  {
    if ids == [] {
      parts := [];
    } else {
      var n := |ids| - 1;
      var before := ImportExists(db, key, defs, ids[..n], documents[..n], revs[..n]);
      var part := PutExists(db, ids[n], key, defs, Doc(documents[n], revs[n]));
      PutsAppend(before, part, db, key, defs, ids, documents, revs[..n], n, revs[n]);
      assert ids[..n + 1] == ids && documents[..n + 1] == documents && revs[..n] + [revs[n]] == revs;
      parts := before + [part];
    }
  }

  /** Whatever was read of a valid store, the operation has a batch to commit. */
  lemma BatchExists(op: Op, v: View, c: Choice) returns (batch: Batch)
    requires WellFormed(op) && (!WholeDatabase(op) ==> ValidDefs(v.defs)) && (op.CreateDb? ==> ValidList(op.defs))
    requires op.ImportDocs? ==> |c.ids| == |op.documents| == |c.revs| && forall i :: 0 <= i < |c.ids| ==> ValidId(c.ids[i])
    requires op.ReplaceDoc? || op.PatchDoc? || op.DeleteDoc? ==> op.id in v.docs && v.docs[op.id].Some?
    requires op.ReplaceDoc? || op.PatchDoc? ==> NewJson(op, v.docs[op.id].value.json).Some?
    ensures BatchFor(op, v, c, batch)
  {
    match op {
      case CreateDb(db, defs) => batch := CreateExists(db, c.key, defs);
      case DeleteDb(db) => {
        DeleteWritesKeys(db);
        batch := DeleteWrites(db);
      }
      case CreateDoc(db, id, json) => batch := PutExists(db, id, v.key, v.defs, Doc(json, c.rev));
      case ImportDocs(db, documents) => {
        var parts := ImportExists(db, v.key, v.defs, c.ids, documents, c.revs);
        batch := Flatten(parts);
      }
      case Observe(_) => batch := [];
      case DeleteDoc(db, id, _) => batch := RemoveExists(db, id, v.key, v.defs, v.docs[id].value.json);
      case ReplaceDoc(_, _, _, _) => batch := ChangeBatchExists(op, v, c);
      case PatchDoc(_, _, _, _) => batch := ChangeBatchExists(op, v, c);
    }
  }

  lemma ChangeBatchExists(op: Op, v: View, c: Choice) returns (batch: Batch)
    requires WellFormed(op) && (op.ReplaceDoc? || op.PatchDoc?) && ValidDefs(v.defs)
    requires op.id in v.docs && v.docs[op.id].Some? && NewJson(op, v.docs[op.id].value.json).Some?
    ensures ChangeBatchFor(op, v, c, batch)
  {
    var current := v.docs[op.id].value.json;
    batch := ChangeExists(op.db, op.id, v.key, v.defs, current, Doc(NewJson(op, current).value, c.rev));
  }
}
