/**
 The layout of the key space: which byte key stands for which record, and which ranges of
 keys belong to a database, an index, a type of value or a single value.
 */
module Keys {
  import opened Bytes
  import opened Parts
  import opened Names
  import V = IndexValue

  /** A record of the store. */
  datatype Key =
    | DbKey(db: bytes)
    | DocKey(db: bytes, id: bytes)
    | DefKey(db: bytes, index: bytes)
    | EntryKey(db: bytes, index: bytes, value: bytes, id: bytes)

  predicate Valid(k: Key) {
    && ValidName(k.db)
    && (k.DefKey? || k.EntryKey? ==> ValidName(k.index))
    && (k.DocKey? || k.EntryKey? ==> ValidId(k.id))
    && (k.EntryKey? ==> V.Valid(k.value))
  }

  function DocsPrefix(db: bytes): bytes {
    [0x02] + db + [0x00]
  }

  function DefPrefix(db: bytes): bytes {
    AppendPart([0x03], db)
  }

  function DataPrefix(db: bytes): bytes {
    AppendPart([0x04], db)
  }

  function IndexPrefix(db: bytes, index: bytes): bytes {
    AppendPart(DataPrefix(db), index)
  }

  function TypePrefix(db: bytes, index: bytes, tag: byte): bytes {
    IndexPrefix(db, index) + [tag]
  }

  function ValuePrefix(db: bytes, index: bytes, value: bytes): bytes {
    IndexPrefix(db, index) + value
  }

  function Encode(k: Key): bytes {
    match k
    case DbKey(db) => [0x01] + db
    case DocKey(db, id) => DocsPrefix(db) + id
    case DefKey(db, index) => AppendPart(DefPrefix(db), index)
    case EntryKey(db, index, value, id) => ValuePrefix(db, index, value) + id
  }

  // ---------------------------------------------------------------------------
  // Different records have different keys

  lemma {:induction false} ZeroEndsName(a: bytes, s: bytes, b: bytes, t: bytes)
    requires 0x00 !in a && 0x00 !in b
    requires a + [0x00] + s == b + [0x00] + t
    ensures a == b && s == t
    decreases |a|
  {
    var x, y := a + [0x00] + s, b + [0x00] + t;
    assert x[0] == if a == [] then 0x00 else a[0];
    assert y[0] == if b == [] then 0x00 else b[0];
    if a == [] || b == [] {
      assert a == [] && b == [];
      assert x[1..] == s && y[1..] == t;
    } else {
      assert x[1..] == a[1..] + [0x00] + s && y[1..] == b[1..] + [0x00] + t;
      ZeroEndsName(a[1..], s, b[1..], t);
      assert a == [a[0]] + a[1..] && b == [b[0]] + b[1..];
    }
  }

  /** After its tag byte a key of the definition or the entry space starts with the database name as a part. */
  lemma PartLayout(tag: byte, db: bytes, rest: bytes)
    ensures (AppendPart([tag], db) + rest)[1..] == AppendPart([], db) + rest
  {
  }

  lemma TaggedPartsApart(tag: byte, p: bytes, s: bytes, q: bytes, t: bytes)
    requires |p| < 0x80 && |q| < 0x80
    requires AppendPart([tag], p) + s == AppendPart([tag], q) + t
    ensures p == q && s == t
  {
    PartLayout(tag, p, s);
    PartLayout(tag, q, t);
    PartsApart(p, s, q, t);
  }

  lemma IndexLayout(db: bytes, index: bytes, rest: bytes)
    ensures IndexPrefix(db, index) + rest == AppendPart([0x04], db) + (AppendPart([], index) + rest)
  {
  }

  lemma IndexesApart(db: bytes, index: bytes, s: bytes, db': bytes, index': bytes, t: bytes)
    requires |db| < 0x80 && |db'| < 0x80 && |index| < 0x80 && |index'| < 0x80
    requires IndexPrefix(db, index) + s == IndexPrefix(db', index') + t
    ensures db == db' && index == index' && s == t
  {
    IndexLayout(db, index, s);
    IndexLayout(db', index', t);
    TaggedPartsApart(0x04, db, AppendPart([], index) + s, db', AppendPart([], index') + t);
    PartsApart(index, s, index', t);
  }

  /** Values in front of anything are told apart, because none is a prefix of another. */
  lemma ValuesApart(v: bytes, s: bytes, w: bytes, t: bytes)
    requires V.Valid(v) && V.Valid(w) && v + s == w + t
    ensures v == w && s == t
  {
    if v != w {
      V.PrefixFree(v, w);
      DivergeOrder(v, w, s, t);
    }
    assert (v + s)[|v|..] == s && (w + t)[|w|..] == t;
  }

  lemma EntriesApart(x: Key, y: Key)
    requires x.EntryKey? && y.EntryKey? && Valid(x) && Valid(y) && Encode(x) == Encode(y)
    ensures x == y
  {
    assert Encode(x) == IndexPrefix(x.db, x.index) + (x.value + x.id);
    assert Encode(y) == IndexPrefix(y.db, y.index) + (y.value + y.id);
    IndexesApart(x.db, x.index, x.value + x.id, y.db, y.index, y.value + y.id);
    ValuesApart(x.value, x.id, y.value, y.id);
  }

  function Tag(k: Key): byte {
    match k
    case DbKey(_) => 0x01
    case DocKey(_, _) => 0x02
    case DefKey(_, _) => 0x03
    case EntryKey(_, _, _, _) => 0x04
  }

  lemma TagFirst(k: Key)
    ensures Encode(k) != [] && Encode(k)[0] == Tag(k)
  {
  }

  lemma EncodeInjective(x: Key, y: Key)
    requires Valid(x) && Valid(y) && Encode(x) == Encode(y)
    ensures x == y
  {
    TagFirst(x);
    TagFirst(y);
    match x {
      case DbKey(db) =>
        assert Encode(x)[1..] == db && Encode(y)[1..] == y.db;
      case DocKey(db, id) =>
        DocsApart(db, id, y.db, y.id);
      case DefKey(db, index) =>
        DefLayout(db, index);
        DefLayout(y.db, y.index);
        TaggedPartsApart(0x03, db, AppendPart([], index), y.db, AppendPart([], y.index));
        PartsApart(index, [], y.index, []);
      case EntryKey(_, _, _, _) =>
        EntriesApart(x, y);
    }
  }

  lemma DefLayout(db: bytes, index: bytes)
    ensures Encode(DefKey(db, index)) == AppendPart([0x03], db) + AppendPart([], index)
    ensures AppendPart([], index) == AppendPart([], index) + []
  {
  }

  lemma DocsApart(db: bytes, s: bytes, db': bytes, t: bytes)
    requires ValidName(db) && ValidName(db') && DocsPrefix(db) + s == DocsPrefix(db') + t
    ensures db == db' && s == t
  {
    assert (DocsPrefix(db) + s)[1..] == db + [0x00] + s;
    assert (DocsPrefix(db') + t)[1..] == db' + [0x00] + t;
    ZeroEndsName(db, s, db', t);
  }

  // ---------------------------------------------------------------------------
  // What starts with a prefix

  lemma PrefixRest(p: bytes, k: bytes)
    requires p <= k
    ensures k == p + k[|p|..]
  {
  }

  lemma PrefixTag(p: bytes, k: bytes)
    requires p != [] && p <= k
    ensures k != [] && k[0] == p[0]
  {
  }

  lemma DocsRange(db: bytes, k: Key)
    requires ValidName(db) && Valid(k)
    ensures DocsPrefix(db) <= Encode(k) <==> k.DocKey? && k.db == db
  {
    TagFirst(k);
    if DocsPrefix(db) <= Encode(k) {
      PrefixTag(DocsPrefix(db), Encode(k));
      PrefixRest(DocsPrefix(db), Encode(k));
      DocsApart(db, Encode(k)[|DocsPrefix(db)|..], k.db, k.id);
    }
  }

  lemma DefRange(db: bytes, k: Key)
    requires ValidName(db) && Valid(k)
    ensures DefPrefix(db) <= Encode(k) <==> k.DefKey? && k.db == db
  {
    TagFirst(k);
    if DefPrefix(db) <= Encode(k) {
      PrefixTag(DefPrefix(db), Encode(k));
      PrefixRest(DefPrefix(db), Encode(k));
      DefLayout(k.db, k.index);
      TaggedPartsApart(0x03, db, Encode(k)[|DefPrefix(db)|..], k.db, AppendPart([], k.index));
    } else if k.DefKey? && k.db == db {
      DefLayout(k.db, k.index);
    }
  }

  lemma EntryLayout(k: Key)
    requires k.EntryKey?
    ensures Encode(k) == DataPrefix(k.db) + (AppendPart([], k.index) + (k.value + k.id))
    ensures Encode(k) == IndexPrefix(k.db, k.index) + (k.value + k.id)
  {
    IndexLayout(k.db, k.index, k.value + k.id);
  }

  lemma DataRange(db: bytes, k: Key)
    requires ValidName(db) && Valid(k)
    ensures DataPrefix(db) <= Encode(k) <==> k.EntryKey? && k.db == db
  {
    TagFirst(k);
    if k.EntryKey? { EntryLayout(k); }
    if DataPrefix(db) <= Encode(k) {
      PrefixTag(DataPrefix(db), Encode(k));
      PrefixRest(DataPrefix(db), Encode(k));
      TaggedPartsApart(0x04, db, Encode(k)[|DataPrefix(db)|..], k.db, AppendPart([], k.index) + (k.value + k.id));
    }
  }

  lemma IndexRange(db: bytes, index: bytes, k: Key)
    requires ValidName(db) && ValidName(index) && Valid(k)
    ensures IndexPrefix(db, index) <= Encode(k) <==> k.EntryKey? && k.db == db && k.index == index
  {
    TagFirst(k);
    if k.EntryKey? { EntryLayout(k); }
    if IndexPrefix(db, index) <= Encode(k) {
      PrefixTag(IndexPrefix(db, index), Encode(k));
      PrefixRest(IndexPrefix(db, index), Encode(k));
      IndexesApart(db, index, Encode(k)[|IndexPrefix(db, index)|..], k.db, k.index, k.value + k.id);
    }
  }

  /** The keys that start with the index prefix and `head`. */
  lemma HeadRange(db: bytes, index: bytes, head: bytes, k: Key)
    requires ValidName(db) && ValidName(index) && Valid(k)
    ensures IndexPrefix(db, index) + head <= Encode(k)
       <==> k.EntryKey? && k.db == db && k.index == index && head <= k.value + k.id
  {
    var p := IndexPrefix(db, index);
    IndexRange(db, index, k);
    if k.EntryKey? { EntryLayout(k); }
    if p + head <= Encode(k) {
      PrefixesNest(p, p + head, Encode(k));
      assert p <= p + head;
      PrefixRest(p + head, Encode(k));
      assert Encode(k)[|p|..] == head + Encode(k)[|p + head|..];
      assert Encode(k)[|p|..] == k.value + k.id;
    }
  }

  lemma HeadByte(tag: byte, value: bytes, id: bytes)
    requires value != []
    ensures [tag] <= value + id <==> value[0] == tag
  {
    assert (value + id)[0] == value[0];
    assert [tag] <= value + id <==> (value + id)[..1] == [tag];
  }

  lemma TypeLayout(db: bytes, index: bytes, value: bytes, id: bytes)
    requires value != []
    ensures ValuePrefix(db, index, value) + id == TypePrefix(db, index, value[0]) + value[1..] + id
  {
    assert value == [value[0]] + value[1..];
  }

  lemma TypeRange(db: bytes, index: bytes, tag: byte, k: Key)
    requires ValidName(db) && ValidName(index) && Valid(k)
    ensures TypePrefix(db, index, tag) <= Encode(k)
       <==> k.EntryKey? && k.db == db && k.index == index && k.value[0] == tag
  {
    HeadRange(db, index, [tag], k);
    if k.EntryKey? { HeadByte(tag, k.value, k.id); }
  }

  lemma ValueRange(db: bytes, index: bytes, value: bytes, k: Key)
    requires ValidName(db) && ValidName(index) && V.Valid(value) && Valid(k)
    ensures ValuePrefix(db, index, value) <= Encode(k)
       <==> k.EntryKey? && k.db == db && k.index == index && k.value == value
  {
    HeadRange(db, index, value, k);
    if k.EntryKey? && value <= k.value + k.id {
      PrefixRest(value, k.value + k.id);
      ValuesApart(value, (k.value + k.id)[|value|..], k.value, k.id);
    }
  }

  // ---------------------------------------------------------------------------
  // Order within one index

  /** Values decide, then identifiers. */
  predicate EntryLess(v: bytes, i: bytes, w: bytes, j: bytes) {
    Less(v, w) || (v == w && Less(i, j))
  }

  lemma EntryOrder(db: bytes, index: bytes, v: bytes, i: bytes, w: bytes, j: bytes)
    requires V.Valid(v) && V.Valid(w)
    ensures Less(ValuePrefix(db, index, v) + i, ValuePrefix(db, index, w) + j) <==> EntryLess(v, i, w, j)
  {
    var p := IndexPrefix(db, index);
    assert ValuePrefix(db, index, v) + i == p + (v + i);
    assert ValuePrefix(db, index, w) + j == p + (w + j);
    LessAfterPrefix(p, v + i, w + j);
    if v == w {
      LessAfterPrefix(v, i, j);
      LessIrreflexive(v);
    } else {
      V.PrefixFree(v, w);
      DivergeOrder(v, w, i, j);
    }
  }

  /** On which side of the bounds made from a value an entry lies. */
  lemma EntryBounds(db: bytes, index: bytes, v: bytes, k: Key)
    requires V.Valid(v) && Valid(k) && k.EntryKey? && k.db == db && k.index == index && ValidName(db) && ValidName(index)
    ensures Less(Encode(k), ValuePrefix(db, index, v)) <==> Less(k.value, v)
    ensures PrefixEnd(ValuePrefix(db, index, v)).Some?
    ensures Less(Encode(k), PrefixEnd(ValuePrefix(db, index, v)).value) <==> AtMost(k.value, v)
  {
    var bound := ValuePrefix(db, index, v);
    assert bound + [] == bound;
    EntryOrder(db, index, k.value, k.id, v, []);
    PrefixEndSome(bound);
    PrefixEndExact(bound, Encode(k));
    PrefixEndExact(bound, bound);
    ValueRange(db, index, v, k);
    LessTotal(k.value, v);
    LessIrreflexive(v);
    if Less(k.value, v) {
      LessTransitive(Encode(k), bound, PrefixEnd(bound).value);
      LessAsymmetric(k.value, v);
    }
  }

  lemma {:induction false} PrefixEndSome(p: bytes)
    requires p != [] && p[0] < 0xff
    ensures PrefixEnd(p).Some?
    decreases |p|
  {
    if |p| > 1 && p[|p| - 1] == 0xff { PrefixEndSome(p[..|p| - 1]); }
  }
}
