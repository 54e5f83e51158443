/**
 Cutting an index key back into the value and the identifier it was made from.
 */
module IndexEntry {
  import opened Bytes
  import V = IndexValue
  import Num = SortableNumber
  import Str = SortableString
  import Keys

  datatype Entry = Entry(value: bytes, id: bytes)

  /** `bytes.IndexByte` */
  function IndexByte(s: bytes, b: byte): (i: int)
    ensures -1 <= i < |s|
  {
    if s == [] then -1
    else if s[0] == b then 0
    else
      var i := IndexByte(s[1..], b);
      if i < 0 then -1 else i + 1
  }

  lemma {:induction false} IndexByteFirst(a: bytes, b: byte, rest: bytes)
    requires b !in a
    ensures IndexByte(a + [b] + rest, b) == |a|
    decreases |a|
  {
    if a != [] {
      assert (a + [b] + rest)[1..] == a[1..] + [b] + rest;
      IndexByteFirst(a[1..], b, rest);
    }
  }

  /** How many bytes of `rest` the number takes. */
  function NumberExtent(rest: bytes): Option<nat> {
    if rest == [] then None
    else if rest[0] == 0x01 then Some(1)
    else if rest[0] != 0x00 && rest[0] != 0x02 then None
    else if |rest| < 11 then None
    else
      var position := IndexByte(rest[9..], if rest[0] == 0x00 then 0xff else 0x00);
      if position < 1 then None else Some(9 + position + 1)
  }

  /** How many bytes of `rest` the string takes, reading on from `end`. */
  function StringExtent(rest: bytes, end: nat): Option<nat>
    decreases |rest| - end
  {
    if end >= |rest| - 1 then Some(end)
    else if rest[end] != 0x00 then StringExtent(rest, end + 1)
    else if rest[end + 1] == 0xff then StringExtent(rest, end + 2)
    else if rest[end + 1] == 0x00 then Some(end + 2)
    else None
  }

  function Extent(tag: byte, rest: bytes): Option<nat> {
    if tag == V.NUMBER then NumberExtent(rest)
    else if tag == V.STRING then StringExtent(rest, 0)
    else None
  }

  function SplitIndexEntry(prefix: bytes, key: bytes): Option<Entry> {
    if !(prefix <= key) || prefix == [] then None
    else
      var tag, rest := prefix[|prefix| - 1], key[|prefix|..];
      match Extent(tag, rest)
      case None => None
      case Some(end) =>
        if end > |rest| then None
        else if !V.Valid([tag] + rest[..end]) then None
        else Some(Entry([tag] + rest[..end], rest[end..]))
  }

  lemma NumberExtentExact(v: bytes, id: bytes)
    requires Num.ValidNumber(v)
    ensures NumberExtent(v + id) == Some(|v|)
  {
    var rest := v + id;
    if v != [0x01] {
      var n := |v| - 1;
      var terminator := if v[0] == 0x00 then 0xff else 0x00;
      var digits := v[9..n];
      DigitsUnlikeTerminator(v, digits, terminator);
      assert rest[9..] == digits + [terminator] + id;
      IndexByteFirst(digits, terminator, id);
    }
  }

  lemma DigitsUnlikeTerminator(v: bytes, digits: bytes, terminator: byte)
    requires Num.ValidNumber(v) && v != [0x01] && digits == v[9..|v| - 1]
    requires terminator == if v[0] == 0x00 then 0xff else 0x00
    ensures |v| >= 11 && v[|v| - 1] == terminator && terminator !in digits
  {
    var body := Num.BodyOf(v);
    var value := (i: int) requires 0 <= i < |v| - 1 => if v[0] == 0x00 then 0xff - body[i] else body[i];
    assert forall i :: 0 <= i < |v| - 1 ==> v[i + 1] == value(i);
    assert v[|v| - 1] == value(|v| - 2);
    forall i | 0 <= i < |digits| ensures digits[i] != terminator {
      assert digits[i] == v[i + 9] == value(i + 8);
    }
  }

  lemma {:induction false} StringExtentExact(pre: bytes, v: bytes, id: bytes)
    requires Str.Decode(v).Some?
    ensures StringExtent(pre + v + id, |pre|) == Some(|pre| + |v|)
    decreases |v|
  {
    var rest := pre + v + id;
    assert rest[|pre|] == v[0];
    if v[0] != 0x00 {
      assert |v| >= 2;
      assert rest == (pre + [v[0]]) + v[1..] + id;
      StringExtentExact(pre + [v[0]], v[1..], id);
    } else if v[1] == 0xff {
      assert rest[|pre| + 1] == v[1];
      assert rest == (pre + [0x00, 0xff]) + v[2..] + id;
      StringExtentExact(pre + [0x00, 0xff], v[2..], id);
    } else {
      assert rest[|pre| + 1] == v[1];
    }
  }

  /** Splitting undoes the making of the key: whatever identifier follows, the value is cut off exactly. */
  lemma SplitBack(prefix: bytes, v: bytes, id: bytes)
    requires prefix != [] && V.Valid(v) && v[0] == prefix[|prefix| - 1]
    requires v[0] == V.NUMBER || v[0] == V.STRING
    ensures SplitIndexEntry(prefix, prefix + v[1..] + id) == Some(Entry(v, id))
  {
    var key := prefix + v[1..] + id;
    var rest := v[1..] + id;
    assert key[|prefix|..] == rest;
    if v[0] == V.NUMBER {
      NumberExtentExact(v[1..], id);
    } else {
      assert rest == [] + v[1..] + id;
      StringExtentExact([], v[1..], id);
    }
    assert v == [v[0]] + v[1..];
    assert rest[..|v| - 1] == v[1..] && rest[|v| - 1..] == id;
  }

  /** ... under the type prefix the query code cuts with. */
  lemma SplitIndexKey(k: Keys.Key)
    requires Keys.Valid(k) && k.EntryKey? && (k.value[0] == V.NUMBER || k.value[0] == V.STRING)
    ensures SplitIndexEntry(Keys.TypePrefix(k.db, k.index, k.value[0]), Keys.Encode(k)) == Some(Entry(k.value, k.id))
  {
    Keys.TypeLayout(k.db, k.index, k.value, k.id);
    SplitBack(Keys.TypePrefix(k.db, k.index, k.value[0]), k.value, k.id);
  }

  /** The scanning loops of the splitter. */
  method Split(prefix: bytes, key: bytes) returns (entry: Option<Entry>)
    ensures entry == SplitIndexEntry(prefix, key)
  {
    if !(prefix <= key) || |prefix| == 0 {
      return None;
    }
    var tag, rest := prefix[|prefix| - 1], key[|prefix|..];
    var end := 0;
    if tag == V.NUMBER {
      if |rest| == 0 {
        return None;
      }
      if rest[0] == 0x01 {
        end := 1;
      } else if rest[0] == 0x00 || rest[0] == 0x02 {
        if |rest| < 11 {
          return None;
        }
        var position := IndexByte(rest[9..], if rest[0] == 0x00 then 0xff else 0x00);
        if position < 1 {
          return None;
        }
        end := 9 + position + 1;
      } else {
        return None;
      }
    } else if tag == V.STRING {
      while end < |rest| - 1
        invariant 0 <= end <= |rest|
        invariant StringExtent(rest, 0) == StringExtent(rest, end)
        decreases |rest| - end
      {
        if rest[end] != 0x00 {
          end := end + 1;
        } else if rest[end + 1] == 0xff {
          end := end + 2;
        } else if rest[end + 1] == 0x00 {
          end := end + 2;
          break;
        } else {
          return None;
        }
      }
      assert StringExtent(rest, 0) == Some(end);
    } else {
      return None;
    }
    var value := [tag] + rest[..end];
    if !V.Valid(value) {
      return None;
    }
    return Some(Entry(value, rest[end..]));
  }
}
