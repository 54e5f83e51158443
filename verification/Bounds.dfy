/**
 Comparison operators as ranges of keys: the entries between the bounds of a query are exactly those of
 its index whose value is of the right type and compares as asked.
 */
module Bounds {
  import opened Bytes
  import opened Names
  import opened Json
  import Keys
  import V = IndexValue

  datatype CmpOp = Eq | Lt | Le | Gt | Ge

  predicate Compare(op: CmpOp, v: bytes, w: bytes) {
    match op
    case Eq => v == w
    case Lt => Less(v, w)
    case Le => AtMost(v, w)
    case Gt => Less(w, v)
    case Ge => AtMost(w, v)
  }

  datatype Query = Query(db: bytes, index: bytes, op: CmpOp, value: bytes)

  predicate ValidQuery(q: Query) {
    ValidName(q.db) && ValidName(q.index) && V.Valid(q.value)
  }

  function TypePrefix(q: Query): bytes
    requires q.value != []
  {
    Keys.TypePrefix(q.db, q.index, q.value[0])
  }

  function Boundary(q: Query): bytes {
    Keys.ValuePrefix(q.db, q.index, q.value)
  }

  /** The bound right behind a prefix, as a lower bound: an absent one bounds nothing. */
  function Behind(prefix: bytes): bytes {
    var end := PrefixEnd(prefix);
    if end.Some? then end.value else []
  }

  function Lower(q: Query): bytes
    requires q.value != []
  {
    match q.op
    case Eq => Boundary(q)
    case Gt => Behind(Boundary(q))
    case Ge => Boundary(q)
    case Lt => TypePrefix(q)
    case Le => TypePrefix(q)
  }

  function Upper(q: Query): Option<bytes>
    requires q.value != []
  {
    match q.op
    case Eq => PrefixEnd(Boundary(q))
    case Lt => Some(Boundary(q))
    case Le => PrefixEnd(Boundary(q))
    case Gt => PrefixEnd(TypePrefix(q))
    case Ge => PrefixEnd(TypePrefix(q))
  }

  /** The keys a query is after. */
  predicate Selects(q: Query, k: Keys.Key)
    requires V.Valid(q.value) && Keys.Valid(k)
  {
    && k.EntryKey? && k.db == q.db && k.index == q.index
    && k.value[0] == q.value[0] && Compare(q.op, k.value, q.value)
  }

  lemma BoundaryEnds(q: Query)
    requires ValidQuery(q)
    ensures TypePrefix(q) <= Boundary(q)
    ensures AtMost(TypePrefix(q), Boundary(q))
    ensures PrefixEnd(Boundary(q)).Some? && PrefixEnd(TypePrefix(q)).Some?
    ensures Less(Boundary(q), PrefixEnd(Boundary(q)).value)
    ensures Less(Boundary(q), PrefixEnd(TypePrefix(q)).value)
  {
    Keys.TypeLayout(q.db, q.index, q.value, []);
    assert Boundary(q) == TypePrefix(q) + q.value[1..] + [] == TypePrefix(q) + q.value[1..];
    PrefixAtMost(TypePrefix(q), Boundary(q));
    Keys.PrefixEndSome(Boundary(q));
    Keys.PrefixEndSome(TypePrefix(q));
    PrefixEndExact(Boundary(q), Boundary(q));
    PrefixEndExact(TypePrefix(q), Boundary(q));
  }

  /** Anything below the end of the boundary is below the end of its type. */
  lemma EndsNest(q: Query, k: bytes)
    requires ValidQuery(q) && PrefixEnd(Boundary(q)).Some? && Less(k, PrefixEnd(Boundary(q)).value)
    requires PrefixEnd(TypePrefix(q)).Some?
    ensures Less(k, PrefixEnd(TypePrefix(q)).value)
  {
    BoundaryEnds(q);
    if Less(k, Boundary(q)) {
      LessTransitive(k, Boundary(q), PrefixEnd(TypePrefix(q)).value);
    } else {
      PrefixEndExact(Boundary(q), k);
      PrefixEndExact(TypePrefix(q), k);
      assert TypePrefix(q) <= Boundary(q) <= k;
    }
  }

  /** The bounds of a range query stay inside its type and cut it at the boundary or behind it. */
  lemma BoundsInType(q: Query, k: bytes)
    requires ValidQuery(q) && q.op != Eq
    ensures PrefixEnd(Boundary(q)).Some?
    ensures Within(k, Lower(q), Upper(q)) <==>
            && TypePrefix(q) <= k
            && (match q.op
                case Lt => Less(k, Boundary(q))
                case Le => Less(k, PrefixEnd(Boundary(q)).value)
                case Gt => AtMost(PrefixEnd(Boundary(q)).value, k)
                case Ge => AtMost(Boundary(q), k)
                case Eq => true)
  {
    BoundaryEnds(q);
    PrefixEndExact(TypePrefix(q), k);
    var end := PrefixEnd(Boundary(q)).value;
    match q.op {
      case Lt => if Less(k, Boundary(q)) { LessTransitive(k, Boundary(q), PrefixEnd(TypePrefix(q)).value); }
      case Le => if Less(k, end) { EndsNest(q, k); }
      case Gt => if AtMost(end, k) { LessAsymmetric(Boundary(q), end); BelowPrefix(TypePrefix(q), Boundary(q), end); BelowPrefix(TypePrefix(q), end, k); }
      case Ge => if AtMost(Boundary(q), k) { BelowPrefix(TypePrefix(q), Boundary(q), k); }
    }
  }

  /** The keys of the layout within the bounds of a query are those it is after. */
  lemma BoundsExact(q: Query, k: Keys.Key)
    requires ValidQuery(q) && Keys.Valid(k)
    ensures Within(Keys.Encode(k), Lower(q), Upper(q)) <==> Selects(q, k)
  {
    if q.op == Eq {
      PrefixEndExact(Boundary(q), Keys.Encode(k));
      Keys.ValueRange(q.db, q.index, q.value, k);
    } else {
      BoundsInType(q, Keys.Encode(k));
      Keys.TypeRange(q.db, q.index, q.value[0], k);
      if k.EntryKey? && k.db == q.db && k.index == q.index { Keys.EntryBounds(q.db, q.index, q.value, k); }
    }
  }

  // ---------------------------------------------------------------------------
  // What comparing encodings means

  /** How two scalars compare. */
  predicate ScalarCompare(op: CmpOp, x: Json, y: Json) {
    && V.SameType(x, y)
    && match op
       case Eq => V.SameScalar(x, y)
       case Lt => V.ScalarLess(x, y)
       case Le => V.ScalarLess(x, y) || V.SameScalar(x, y)
       case Gt => V.ScalarLess(y, x)
       case Ge => V.ScalarLess(y, x) || V.SameScalar(x, y)
  }

  lemma CompareMeans(op: CmpOp, x: Json, y: Json)
    requires V.Encode(x).Value? && V.Encode(y).Value? && (op == Eq || y.Number? || y.Str?)
    ensures V.Encode(x).bytes[0] == V.Encode(y).bytes[0] && Compare(op, V.Encode(x).bytes, V.Encode(y).bytes)
       <==> ScalarCompare(op, x, y)
  {
    V.TagIsType(x, y);
    if V.SameType(x, y) {
      V.ScalarOrder(x, y);
      V.ScalarOrder(y, x);
      CompareByOrder(op, V.Encode(x).bytes, V.Encode(y).bytes);
    }
  }

  lemma CompareByOrder(op: CmpOp, v: bytes, w: bytes)
    ensures Compare(op, v, w) <==>
            match op
            case Eq => v == w
            case Lt => Less(v, w)
            case Le => Less(v, w) || v == w
            case Gt => Less(w, v)
            case Ge => Less(w, v) || v == w
  {
    LessTotal(v, w);
    if Less(v, w) { LessAsymmetric(v, w); }
    if Less(w, v) { LessAsymmetric(w, v); }
  }
}
