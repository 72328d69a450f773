/** The wire format as a sequence of records, read under a descriptor. */
module Wire {
  import opened Bits
  import opened Descriptor
  import Varint

  const WT_VARINT: nat := 0
  const WT_64BIT: nat := 1
  const WT_STRING: nat := 2
  const WT_32BIT: nat := 5

  /** How many bytes a payload takes. */
  datatype Shape = Word64 | AnyVarint | Width(n: nat) | Delimited | Unreadable

  /** A payload cut from the stream. */
  datatype Raw = Word(w: nat) | Octets(b: seq<byte>) | Skipped

  datatype Record = Record(tag: nat, wt: nat, raw: Raw)

  /** What stands at the front of the stream. */
  datatype Lexeme = Malformed | Terminator | Item(rec: Record, len: nat)

  /** The field decoder decides the shape of a known field, whatever its wire type. */
  function NaturalShape(t: LType): Shape {
    match t
    case VarintType => Word64
    case UVarintType => Word64
    case SVarintType => Word64
    case Fixed32Type => Width(4)
    case Fixed64Type => Width(8)
    case _ => Delimited
  }

  predicate Packed(f: Field, wt: nat) {
    f.htype.Repeated? && wt == WT_STRING && f.Packable()
  }

  function FieldShape(f: Field, wt: nat): Shape {
    if Packed(f, wt) then Delimited else NaturalShape(f.ltype)
  }

  /** Unknown fields are skipped by wire type. */
  function SkipShape(wt: nat): Shape {
    if wt == WT_VARINT then AnyVarint
    else if wt == WT_64BIT then Width(8)
    else if wt == WT_STRING then Delimited
    else if wt == WT_32BIT then Width(4)
    else Unreadable
  }

  /** The payload shape under a descriptor.  In an empty descriptor the end marker itself answers
      to tag 0, and decoding it always fails. */
  function ShapeOf(fields: seq<Field>, tag: nat, wt: nat): Shape {
    match Find(fields, tag)
    case Some(i) => FieldShape(fields[i], wt)
    case None => if fields == [] && tag == 0 then Unreadable else SkipShape(wt)
  }

  function ReadDelimited(s: seq<byte>): (r: Parsed<seq<byte>>)
    ensures r.Good? ==> 1 <= r.len <= |s| && |r.value| < |s|
  {
    match Varint.Read32(s)
    case Bad => Bad
    case Good(size, n) =>
      assert n <= |s| by { Varint.Read32Extent(s); Varint.ExtentBound(s); }
      if |s| - n < size then Bad else Good(s[n..n + size], n + size)
  }

  function ReadRaw(shape: Shape, s: seq<byte>): (r: Parsed<Raw>)
    ensures r.Good? ==> r.len <= |s|
  {
    match shape
    case Word64 =>
      (match Varint.Read64(s)
       case Bad => Bad
       case Good(v, n) =>
         assert n <= |s| by { Varint.ExtentBound(s); }
         Good(Word(v), n))
    case AnyVarint =>
      (match Varint.Extent(s)
       case None => Bad
       case Some(n) =>
         assert n <= |s| by { Varint.ExtentBound(s); }
         Good(Skipped, n))
    case Width(k) => if |s| < k then Bad else Good(Octets(s[..k]), k)
    case Delimited => (match ReadDelimited(s) case Bad => Bad case Good(b, n) => Good(Octets(b), n))
    case Unreadable => Bad
  }

  function ReadRecord(fields: seq<Field>, s: seq<byte>): (r: Lexeme)
    ensures r.Item? ==> 1 <= r.len <= |s|
  {
    match Varint.Read32(s)
    case Bad => Malformed
    case Good(key, n) =>
      assert 1 <= n <= |s| by { Varint.Read32Extent(s); Varint.ExtentBound(s); }
      if key == 0 then Terminator
      else
        match ReadRaw(ShapeOf(fields, key / 8, key % 8), s[n..])
        case Bad => Malformed
        case Good(raw, m) => Item(Record(key / 8, key % 8, raw), n + m)
  }

  /** All records up to the end of the stream or a zero key. */
  function Lex(fields: seq<Field>, s: seq<byte>): Option<seq<Record>> {
    if s == [] then Some([])
    else
      match ReadRecord(fields, s)
      case Malformed => None
      case Terminator => Some([])
      case Item(r, n) =>
        match Lex(fields, s[n..])
        case None => None
        case Some(rs) => Some([r] + rs)
  }

  // ----- a reader looks only at the bytes it consumes

  lemma {:induction false} ReadDelimitedLocal(s: seq<byte>, t: seq<byte>)
    requires ReadDelimited(s).Good? && Varint.Agree(s, t, ReadDelimited(s).len)
    ensures ReadDelimited(t) == ReadDelimited(s)
  {
    var n := Varint.Read32(s).len;
    var m := ReadDelimited(s).len;
    Varint.Read32Extent(s);
    Varint.ExtentBound(s);
    assert s[..n] == s[..m][..n] == t[..m][..n] == t[..n];
    Varint.Read32Local(s, t);
    assert s[n..m] == s[..m][n..] == t[..m][n..] == t[n..m];
  }

  lemma {:induction false} ReadRawLocal(shape: Shape, s: seq<byte>, t: seq<byte>)
    requires ReadRaw(shape, s).Good? && Varint.Agree(s, t, ReadRaw(shape, s).len)
    ensures ReadRaw(shape, t) == ReadRaw(shape, s)
  {
    match shape
    case Word64 => Varint.ExtentLocal(s, t);
    case AnyVarint => Varint.ExtentLocal(s, t);
    case Width(_) =>
    case Delimited => ReadDelimitedLocal(s, t);
  }

  lemma {:induction false} ReadRecordLocal(fields: seq<Field>, s: seq<byte>, t: seq<byte>)
    requires ReadRecord(fields, s).Item? && Varint.Agree(s, t, ReadRecord(fields, s).len)
    ensures ReadRecord(fields, t) == ReadRecord(fields, s)
  {
    var n := Varint.Read32(s).len;
    var m := ReadRecord(fields, s).len;
    Varint.Read32Extent(s);
    Varint.ExtentBound(s);
    assert s[..n] == s[..m][..n] == t[..m][..n] == t[..n];
    Varint.Read32Local(s, t);
    var key := Varint.Read32(s).value;
    var shape := ShapeOf(fields, key / 8, key % 8);
    assert s[n..][..m - n] == s[..m][n..] == t[..m][n..] == t[n..][..m - n];
    ReadRawLocal(shape, s[n..], t[n..]);
  }

  /** e splits into whole records, with no zero key and no leftover. */
  predicate Whole(fields: seq<Field>, e: seq<byte>) {
    e == [] ||
    (ReadRecord(fields, e).Item? && Whole(fields, e[ReadRecord(fields, e).len..]))
  }

  /** The records of a whole prefix come first, whatever follows. */
  lemma {:induction false} LexAppend(fields: seq<Field>, e: seq<byte>, t: seq<byte>)
    requires Whole(fields, e)
    ensures Lex(fields, e).Some?
    ensures Lex(fields, e + t) ==
            match Lex(fields, t) case None => None case Some(rs) => Some(Lex(fields, e).value + rs)
  {
    hide ReadRecord;
    if e == [] {
      assert e + t == t;
      assert Lex(fields, t).Some? ==> [] + Lex(fields, t).value == Lex(fields, t).value;
      return;
    }
    var r := ReadRecord(fields, e);
    assert e[..r.len] == (e + t)[..r.len];
    ReadRecordLocal(fields, e, e + t);
    assert (e + t)[r.len..] == e[r.len..] + t;
    LexAppend(fields, e[r.len..], t);
    var rs := Lex(fields, e[r.len..]).value;
    if Lex(fields, t).Some? {
      assert [r.rec] + (rs + Lex(fields, t).value) == [r.rec] + rs + Lex(fields, t).value;
    }
  }
}
