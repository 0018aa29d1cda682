/** The cyclic field iterator of pb_common.c as an object updated in place. */
module PbIter {
  import opened PbDescriptor

  /** The rows before the terminator have nonzero tags. */
  predicate Terminated(fields: seq<Field>) {
    forall i :: 0 <= i < |fields| ==> fields[i].tag != 0
  }

  predicate TerminatedTree(fields: seq<Field>) {
    Terminated(fields) && forall i :: 0 <= i < |fields| ==> TerminatedTree(fields[i].sub)
  }

  /** Position `k` steps after `pos` in a ring of `n` rows. */
  function Ahead(pos: nat, k: nat, n: nat): nat
    requires pos < n && k <= n
  {
    if pos + k < n then pos + k else pos + k - n
  }

  class FieldIter {
    const fields: seq<Field>
    var pos: nat
    var pData: int
    var pSize: int
    var requiredIndex: nat

    /** Everything the iterator holds is a function of its position alone. */
    ghost predicate Valid()
      reads this
    {
      && Terminated(fields)
      && (pos == 0 || pos < |fields|)
      && pData == DataOffset(fields, pos)
      && pSize == pData + Row(fields, pos).sizeOffset
      && requiredIndex == RequiredBefore(fields, pos)
    }

    constructor (fields: seq<Field>)
      requires Terminated(fields)
      ensures Valid() && this.fields == fields && pos == 0
    {
      this.fields := fields;
      pos := 0;
      pData := Row(fields, 0).dataOffset;
      pSize := Row(fields, 0).dataOffset + Row(fields, 0).sizeOffset;
      requiredIndex := 0;
    }

    /** `pb_field_iter_begin` on an iterator in use. */
    method Begin() returns (nonEmpty: bool)
      requires Terminated(fields)
      modifies this
      ensures Valid() && pos == 0 && nonEmpty == (fields != [])
    {
      pos := 0;
      requiredIndex := 0;
      pData := Row(fields, pos).dataOffset;
      pSize := pData + Row(fields, pos).sizeOffset;
      nonEmpty := Row(fields, pos).tag != 0;
    }

    /** `pb_field_iter_next`: steps to the next row, or wraps to the first and says so. */
    method Next() returns (more: bool)
      requires Valid()
      modifies this
      ensures Valid()
      ensures more <==> old(pos) + 1 < |fields|
      ensures pos == if more then old(pos) + 1 else 0
    {
      var prev := Row(fields, pos);
      if prev.tag == 0 {
        return false;
      }
      pos := pos + 1;
      var cur := Row(fields, pos);
      if cur.tag == 0 {
        var _ := Begin();
        return false;
      }
      var prevSize: int := prev.dataSize;
      if prev.htype.Oneof? && cur.htype.Oneof? {
        prevSize := 0;
        pData := pData - prev.dataOffset;
      } else if prev.htype.Repeated? {
        prevSize := prevSize * prev.arraySize;
      }
      if prev.htype.Required? {
        requiredIndex := requiredIndex + 1;
      }
      pData := pData + prevSize + cur.dataOffset;
      pSize := pData + cur.sizeOffset;
      return true;
    }

    /** `pb_field_iter_find`: searches once round the ring from the current row. It stops at the
        first row with the tag in that order and otherwise returns to where it was. The one
        row outside the descriptor it can report is the terminator of an empty message. */
    method Find(tag: nat) returns (found: bool, ghost steps: nat)
      requires Valid()
      modifies this
      ensures Valid()
      ensures found <==> (exists i :: 0 <= i < |fields| && fields[i].tag == tag) || (fields == [] && tag == 0)
      ensures found ==> Row(fields, pos).tag == tag
      ensures !found ==> pos == old(pos)
      ensures fields != [] ==>
        && steps <= |fields| && (found ==> steps < |fields|) && pos == Ahead(old(pos), steps, |fields|)
        && forall k :: 0 <= k < steps ==> fields[Ahead(old(pos), k, |fields|)].tag != tag
    {
      var start := pos;
      steps := 0;
      if Row(fields, pos).tag == tag {
        return true, steps;
      }
      var _ := Next();
      steps := 1;
      while pos != start
        invariant Valid() && 1 <= steps
        invariant fields == [] ==> pos == start
        invariant fields != [] ==> steps <= |fields| && pos == Ahead(start, steps, |fields|)
        invariant fields != [] ==> forall k :: 0 <= k < steps ==> fields[Ahead(start, k, |fields|)].tag != tag
        decreases |fields| - steps
      {
        if Row(fields, pos).tag == tag {
          return true, steps;
        }
        var _ := Next();
        steps := steps + 1;
      }
      if fields != [] {
        forall i | 0 <= i < |fields| ensures fields[i].tag != tag {
          assert i == Ahead(start, if i >= start then i - start else i + |fields| - start, |fields|);
        }
      }
      return false, steps;
    }
  }
}
