/**
 Exporting a database: its documents in the order of their identifiers, from one snapshot.
 */
module Exports {
  import opened Bytes
  import opened KeyValue
  import opened Names
  import opened Catalog
  import opened Engine
  import opened Scan
  import S = PathScan
  import Keys

  /** The documents of a database by identifier. */
  function InOrder(docs: map<bytes, Doc>): (list: seq<Doc>)
    ensures |list| == |Ascending(docs.Keys)|
    ensures forall i :: 0 <= i < |list| ==> Ascending(docs.Keys)[i] in docs && list[i] == docs[Ascending(docs.Keys)[i]]
  {
    var ids := Ascending(docs.Keys);
    assert forall i :: 0 <= i < |ids| ==> ids[i] in ids;
    seq(|ids|, i requires 0 <= i < |ids| => docs[ids[i]])
  }

  /** A document under its key, if the key ends in an identifier and the record opens. */
  function ReadExport(db: bytes, key: SecretKey, place: bytes, record: Record): Option<Doc> {
    var prefix := Keys.DocsPrefix(db);
    if |place| < |prefix| || !ValidId(place[|prefix|..]) then None else OpenDoc(place, key, record)
  }

  function Exporter(db: bytes, key: SecretKey): Reader<Record, Doc> {
    (place: bytes, record: Record) => ReadExport(db, key, place, record)
  }

  lemma DocReads(kv: Kv<Record>, a: Store, db: bytes, i: nat)
    requires Represents(kv, a) && db in a && ValidName(db) && i < |S.IdsBehind(kv, db, [])|
    ensures var b, id := S.DocKeysBehind(kv, db, [])[i], S.IdsBehind(kv, db, [])[i];
            b in kv && id in a[db].docs && Exporter(db, a[db].key)(b, kv[b]) == Some(a[db].docs[id])
  {
    var b := S.DocKeysBehind(kv, db, [])[i];
    assert b in S.DocKeysBehind(kv, db, []);
    S.KeysOfDocs(kv, a, db, [], b);
  }

  lemma IdsInOrder(kv: Kv<Record>, a: Store, db: bytes)
    requires Represents(kv, a) && db in a && ValidName(db)
    ensures S.IdsBehind(kv, db, []) == Ascending(a[db].docs.Keys)
  {
    var ids := S.IdsBehind(kv, db, []);
    S.IdsSorted(kv, a, db, []);
    forall x ensures x in ids <==> x in Ascending(a[db].docs.Keys) {
      S.IdsAreDocs(kv, a, db, [], x);
    }
    SortedUnique(ids, Ascending(a[db].docs.Keys));
  }

  lemma ExportItems(kv: Kv<Record>, a: Store, db: bytes)
    requires Represents(kv, a) && db in a && ValidName(db)
    ensures var keys, read := S.DocKeysBehind(kv, db, []), Exporter(db, a[db].key);
            Readable(kv, keys, read, Anything()) && Items(kv, keys, read, Anything()) == InOrder(a[db].docs)
  {
    var keys, ids := S.DocKeysBehind(kv, db, []), S.IdsBehind(kv, db, []);
    forall i | 0 <= i < |keys|
      ensures keys[i] in kv && ids[i] in a[db].docs && Exporter(db, a[db].key)(keys[i], kv[keys[i]]) == Some(a[db].docs[ids[i]])
    {
      DocReads(kv, a, db, i);
    }
    IdsInOrder(kv, a, db);
  }

  /** `exportDocs`: all the documents, and no corruption on a represented store. */
  method ExportDocs(kv: Kv<Record>, db: bytes, ghost a: Store) returns (r: Read<seq<Doc>>)
    requires ValidName(db)
    ensures Represents(kv, a) ==> r == if db in a then Found(InOrder(a[db].docs)) else Missing
  {
    if Represents(kv, a) { ReadsDbKey(kv, a, db); }
    var key := ReadDbKey(kv, db);
    if !key.Found? {
      return if key.Missing? then Missing else Broken;
    }
    if Represents(kv, a) { ExportItems(kv, a, db); }
    var upper := ComputePrefixEnd(Keys.DocsPrefix(db));
    var docs := CollectAll(kv, Keys.DocsPrefix(db), upper, Exporter(db, key.value));
    return if docs.Some? then Found(docs.value) else Broken;
  }
}
