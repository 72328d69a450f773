/** The circular field iterator, and the direct folds it refines. */
module FieldIter {
  import opened Bits
  import opened Descriptor
  import opened Decoder

  /** The end marker of a descriptor table: tag 0, and a type that reads as a required varint. */
  const END: Field := Field(0, VarintType, Required, 0, 0, 0, 0, None)

  /** Table entry i; the end marker stands after the last field. */
  function At(fields: seq<Field>, i: nat): Field
    requires i <= |fields|
  {
    if i == |fields| then END else fields[i]
  }

  /** Bytes a field occupies in the struct. */
  function Occupies(f: Field): nat {
    if f.htype.Repeated? then f.dataSize * f.arraySize else f.dataSize
  }

  /** Offset of the data of entry i: a union shares one offset, everything else follows its
      predecessor after the padding in dataOffset. */
  function DataAt(fields: seq<Field>, i: nat): nat
    requires i <= |fields|
  {
    if i == 0 then At(fields, 0).dataOffset
    else if i < |fields| && Joined(fields, i) then DataAt(fields, i - 1)
    else DataAt(fields, i - 1) + Occupies(fields[i - 1]) + At(fields, i).dataOffset
  }

  /** Offset of the has_ flag, count or which_ tag of entry i. */
  function SizeAt(fields: seq<Field>, i: nat): int
    requires i <= |fields|
  {
    if i > 0 && i < |fields| && Joined(fields, i) then SizeAt(fields, i - 1)
    else DataAt(fields, i) + At(fields, i).sizeOffset
  }

  lemma {:induction false} DataMonotone(fields: seq<Field>, i: nat, j: nat)
    requires i <= j < |fields|
    ensures DataAt(fields, i) <= DataAt(fields, j)
  {
    if i < j { DataMonotone(fields, i, j - 1); }
  }

  /** Field k is a further member of the union its predecessor is in: both are oneof fields, and the offset is the
      one that marks this. */
  predicate Continues(fields: seq<Field>, k: nat)
    requires k < |fields|
  {
    k > 0 && fields[k - 1].htype.OneOf? && fields[k].htype.OneOf? && fields[k].dataOffset == 0xffff_ffff
  }

  /** Fields i to j are members of one union. */
  predicate SameUnion(fields: seq<Field>, i: nat, j: nat)
    requires i <= j < |fields|
  {
    forall k :: i < k <= j ==> Continues(fields, k)
  }

  /** The bytes of a field: those of all its elements, if it is an array. */
  function Extent(f: Field): nat { f.dataSize * if f.htype.Repeated? then f.arraySize else 1 }

  lemma {:induction false} OccupiesExtent(f: Field)
    ensures Occupies(f) == Extent(f)
  {
  }

  /** Whatever follows a union starts past its largest member: the padding of that field, which is
      counted from the end of the last member, covers what the others need more. */
  ghost predicate UnionsPadded(fields: seq<Field>) {
    forall i, k :: 0 <= i < k < |fields| && SameUnion(fields, i, k - 1) && !Continues(fields, k) ==>
      Extent(fields[i]) <= Extent(fields[k - 1]) + fields[k].dataOffset
  }

  /** Fields that are not of one union keep their bytes to themselves. */
  ghost predicate Disjoint(fields: seq<Field>) {
    forall i, j :: 0 <= i < j < |fields| && !SameUnion(fields, i, j) ==>
      DataAt(fields, i) + Extent(fields[i]) <= DataAt(fields, j)
  }

  lemma {:induction false} UnionShares(fields: seq<Field>, i: nat, j: nat)
    requires i <= j < |fields| && SameUnion(fields, i, j)
    ensures DataAt(fields, j) == DataAt(fields, i)
  {
    if i < j {
      UnionShares(fields, i, j - 1);
      assert Continues(fields, j);
    }
  }

  /** The first field past the union of field i. */
  lemma {:induction false} UnionEnd(fields: seq<Field>, i: nat, j: nat) returns (k: nat)
    requires i < j < |fields| && !SameUnion(fields, i, j)
    ensures i < k <= j && SameUnion(fields, i, k - 1) && !Continues(fields, k)
  {
    if SameUnion(fields, i, j - 1) { k := j; } else { k := UnionEnd(fields, i, j - 1); }
  }

  /** The iterator's offsets keep the fields of a struct apart exactly when every union is padded. */
  lemma {:induction false} FieldsDisjoint(fields: seq<Field>)
    ensures Disjoint(fields) <==> UnionsPadded(fields)
  {
    hide DataAt, Continues, Extent;
    if UnionsPadded(fields) {
      forall i, j | 0 <= i < j < |fields| && !SameUnion(fields, i, j)
        ensures DataAt(fields, i) + Extent(fields[i]) <= DataAt(fields, j)
      {
        var k := UnionEnd(fields, i, j);
        UnionStep(fields, i, k);
        DataMonotone(fields, k, j);
      }
    }
    if Disjoint(fields) {
      forall i, k | 0 <= i < k < |fields| && SameUnion(fields, i, k - 1) && !Continues(fields, k)
        ensures Extent(fields[i]) <= Extent(fields[k - 1]) + fields[k].dataOffset
      {
        UnionStep(fields, i, k);
        assert !SameUnion(fields, i, k);
      }
    }
  }

  lemma {:induction false} UnionStep(fields: seq<Field>, i: nat, k: nat)
    requires i < k < |fields| && SameUnion(fields, i, k - 1) && !Continues(fields, k)
    ensures DataAt(fields, k) == DataAt(fields, i) + Extent(fields[k - 1]) + fields[k].dataOffset
  {
    UnionShares(fields, i, k - 1);
    OccupiesExtent(fields[k - 1]);
  }

  /** The has_ flag, count or which_ tag of a field lies where its descriptor says, relative to its data; members of
      a union share that of the first. */
  lemma {:induction false} SizeRelative(fields: seq<Field>, i: nat)
    requires i < |fields|
    ensures SizeAt(fields, i) == DataAt(fields, i) + fields[Home(fields, i)].sizeOffset
    ensures DataAt(fields, i) == DataAt(fields, Home(fields, i))
  {
    if Joined(fields, i) { SizeRelative(fields, i - 1); }
  }

  /** Entry i is met before entry j when going round from entry start. */
  predicate Before(start: nat, i: nat, j: nat) {
    if start <= j then start <= i < j else start <= i || i < j
  }

  class Iter {
    const fields: seq<Field>
    var pos: nat
    var requiredFieldIndex: nat
    var data: nat
    var size: int

    /** The cursor agrees with the folds over the fields before it. */
    ghost predicate Valid()
      reads this
    {
      && pos <= |fields| && (fields != [] ==> pos < |fields|)
      && requiredFieldIndex == RequiredIndex(fields, pos)
      && data == DataAt(fields, pos)
      && size == SizeAt(fields, pos)
    }

    constructor (table: seq<Field>)
      ensures Valid() && fields == table && pos == 0
    {
      fields := table;
      pos, requiredFieldIndex := 0, 0;
      data := At(table, 0).dataOffset;
      size := At(table, 0).dataOffset + At(table, 0).sizeOffset;
    }

    method Begin() returns (nonempty: bool)
      modifies this
      ensures Valid() && pos == 0 && nonempty == (At(fields, 0).tag != 0)
    {
      pos, requiredFieldIndex := 0, 0;
      data := At(fields, 0).dataOffset;
      size := data + At(fields, 0).sizeOffset;
      nonempty := At(fields, 0).tag != 0;
    }

    /** Steps to the next field, or wraps to the first one and reports the end. */
    method Next() returns (more: bool)
      requires Valid() && forall i :: 0 <= i < |fields| ==> fields[i].tag != 0
      modifies this
      ensures Valid()
      ensures more == (old(pos) + 1 < |fields|)
      ensures pos == if more then old(pos) + 1 else 0
    {
      var prev := At(fields, pos);
      if prev.tag == 0 { return false; }
      pos := pos + 1;
      var cur := At(fields, pos);
      if cur.tag == 0 {
        var nonempty := Begin();
        return false;
      }
      more := true;
      var prevSize := prev.dataSize;
      if prev.htype.OneOf? && cur.htype.OneOf? && cur.dataOffset == PB_SIZE_MAX {
        return;
      } else if prev.htype.Repeated? {
        prevSize := prevSize * prev.arraySize;
      }
      if prev.htype.Required? {
        requiredFieldIndex := requiredFieldIndex + 1;
      }
      data := data + prevSize + cur.dataOffset;
      size := data + cur.sizeOffset;
    }

    /** Searches the whole circle, starting where the iterator stands, and stops at the first entry with
        the tag that it meets. */
    method Find(tag: nat) returns (found: bool)
      requires Valid() && forall i :: 0 <= i < |fields| ==> fields[i].tag != 0
      modifies this
      ensures Valid()
      ensures found ==> At(fields, pos).tag == tag
      ensures found ==> forall i :: 0 <= i < |fields| && Before(old(pos), i, pos) ==> fields[i].tag != tag
      ensures !found ==> pos == old(pos)
      ensures !found ==> forall i :: 0 <= i < |fields| ==> fields[i].tag != tag
      ensures !found ==> fields != [] || tag != 0
    {
      var start := pos;
      ghost var wrapped := false;
      if At(fields, pos).tag == tag { return true; }
      var more := Next();
      wrapped := !more;
      while pos != start
        invariant Valid()
        invariant fields == [] ==> pos == start && tag != 0
        invariant !wrapped ==> start < pos && forall i :: start <= i < pos ==> fields[i].tag != tag
        invariant wrapped ==> pos <= start
        invariant wrapped && fields != [] ==> forall i :: start <= i < |fields| || 0 <= i < pos ==> fields[i].tag != tag
        decreases !wrapped, |fields| - pos
      {
        if At(fields, pos).tag == tag { return true; }
        more := Next();
        wrapped := wrapped || !more;
      }
      found := false;
    }
  }
}
