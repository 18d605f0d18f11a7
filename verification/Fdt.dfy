/** The tag reader, the node walk and the in-place deletion of a node, on the bytes of a blob. */
module Fdt {
  import opened Options
  import opened FdtSpec
  import opened FdtWalk
  import opened FdtDelete

  /** The end offset of the node at an offset. */
  function NodeEnd(s: seq<Byte>, offset: int): (end: int)
    ensures end >= 0 ==> 0 <= offset < end <= |s| && offset % 4 == 0 && end % 4 == 0
  {
    if offset < 0 then offset
    else if offset % 4 != 0 || !TagAt(s, offset).0.BeginNode? then BAD_OFFSET
    else EndFrom(s, TagAt(s, offset).1, 0)
  }

  /** The structure block after the deletion of the node at an offset. */
  function Nopped(s: seq<Byte>, offset: int): (r: seq<Byte>)
    ensures |r| == |s|
  {
    hide NodeEnd, TagAt, EndFrom;
    var end := NodeEnd(s, offset);
    if end < 0 then s else FdtDelete.NopRegion(s, offset, end - offset)
  }

  /** The bytes around the structure block are the same. */
  predicate SameAround(a: seq<Byte>, b: seq<Byte>, base: nat, size: nat) {
    |a| == |b| && base + size <= |a| && a[..base] == b[..base] && a[base + size..] == b[base + size..]
  }

  lemma Unwritten(a: seq<Byte>, base: nat, size: nat)
    requires base + size <= |a|
    ensures SameAround(a, a, base, size)
  {
  }

  lemma AroundTrans(a: seq<Byte>, b: seq<Byte>, c: seq<Byte>, base: nat, size: nat)
    requires SameAround(a, b, base, size) && SameAround(b, c, base, size)
    ensures SameAround(a, c, base, size)
  {
  }

  /** The bytes with a NOP tag stored at an offset. */
  function Stored(s: seq<Byte>, at: nat): (r: seq<Byte>)
    requires at + 4 <= |s|
    ensures |r| == |s|
  {
    s[..at] + TagBytes(4) + s[at + 4..]
  }

  /** Four bytes have been written: the tag is stored, and the bytes around the structure block are the same. */
  lemma StoredAround(was: seq<Byte>, now: seq<Byte>, base: nat, size: nat, at: nat)
    requires |now| == |was| && base + size <= |was| && at + 4 <= size
    requires var p := base + at; now[p] == 0 && now[p + 1] == 0 && now[p + 2] == 0 && now[p + 3] == 4
    requires forall i :: 0 <= i < |was| && !(base + at <= i < base + at + 4) ==> now[i] == was[i]
    ensures SameAround(was, now, base, size) && now[base..base + size] == Stored(was[base..base + size], at)
  {
    var a, b := was[base..base + size], now[base..base + size];
    forall i | 0 <= i < size
      ensures b[i] == Stored(a, at)[i]
    {
      assert b[i] == now[base + i] && a[i] == was[base + i];
    }
  }

  class Blob {
    const data: array<Byte>
    const base: nat  // the offset of the structure block in the blob
    const size: nat

    constructor (data: array<Byte>, base: nat, size: nat)
      requires base + size <= data.Length
      ensures Valid() && this.data == data && this.base == base && this.size == size
    {
      this.data, this.base, this.size := data, base, size;
    }

    predicate Valid() {
      base + size <= data.Length
    }

    /** The bytes of the structure block. */
    function Struct(): (s: seq<Byte>)
      requires Valid()
      reads data
      ensures |s| == size
    {
      data[base..base + size]
    }

    /** The position in the blob of some bytes of the structure block, if they are inside it. */
    function OffsetPtr(offset: int, len: nat): (p: Option<nat>)
      requires Valid()
      ensures p.Some? <==> 0 <= offset && offset + len <= size
      ensures p.Some? ==> p.value == base + offset && p.value + len <= data.Length
    {
      if offset < 0 || offset + len > size then None else Some(base + offset)
    }

    method Word(p: nat) returns (w: nat)
      requires Valid() && base <= p && p + 4 <= base + size
      ensures w == Be32(Struct(), p - base)
    {
      var a: int, b: int, c: int, d: int := data[p], data[p + 1], data[p + 2], data[p + 3];
      w := ((a * 256 + b) * 256 + c) * 256 + d;
    }

    /** Skips a name: the offset past its NUL byte. */
    method SkipName(start: nat) returns (offset: Option<nat>)
      requires Valid()
      ensures var nul := NulFrom(Struct(), start);
        offset == if nul.None? then None else Some(nul.value + 1)
    {
      var at := start;
      while true
        invariant start <= at && NulFrom(Struct(), start) == NulFrom(Struct(), at)
        decreases size - at
      {
        var p := OffsetPtr(at, 1);
        if p.None? {
          return None;
        }
        at := at + 1;
        if data[p.value] == 0 {
          return Some(at);
        }
      }
    }

    /** Reads the tag at an offset and finds the next one. */
    method NextTag(startOffset: nat) returns (tag: Tag, next: int)
      requires Valid()
      ensures (tag, next) == TagAt(Struct(), startOffset)
    {
      next := TRUNCATED;
      var p := OffsetPtr(startOffset, 4);
      if p.None? {
        return End, next;
      }
      var word := Word(p.value);
      var offset := startOffset + 4;
      next := BAD_STRUCTURE;
      match word {
        case 1 =>
          tag := BeginNode;
          var skipped := SkipName(offset);
          if skipped.None? {
            return End, next;
          }
          offset := skipped.value;
        case 3 =>
          tag := Prop;
          var lenp := OffsetPtr(offset, 4);
          if lenp.None? {
            return End, next;
          }
          var len := Word(lenp.value);
          offset := offset + 8 + len;
        case 9 => tag := End;
        case 2 => tag := EndNode;
        case 4 => tag := Nop;
        case _ => return End, next;
      }
      if OffsetPtr(startOffset, offset - startOffset).None? {
        return End, next;
      }
      next := Align(offset);
    }

    method CheckNodeOffset(offset: int) returns (next: int)
      requires Valid() && offset >= 0
      ensures next == if offset % 4 != 0 || !TagAt(Struct(), offset).0.BeginNode? then BAD_OFFSET else TagAt(Struct(), offset).1
    {
      if offset % 4 != 0 {
        return BAD_OFFSET;
      }
      var tag;
      tag, next := NextTag(offset);
      if !tag.BeginNode? {
        return BAD_OFFSET;
      }
    }

    /** Finds the next node after the one at an offset, or the first one. */
    method NextNode(start: int, startDepth: Option<int>) returns (offset: int, depth: Option<int>)
      requires Valid()
      ensures (offset, depth) == FdtSpec.NextNode(Struct(), start, startDepth)
    {
      var next := 0;
      depth := startDepth;
      if start >= 0 {
        next := CheckNodeOffset(start);
        if next < 0 {
          return next, depth;
        }
      }
      offset := next;
      ghost var s := Struct();
      while true
        invariant s == Struct() && offset >= 0
        invariant FdtSpec.NextNode(s, start, startDepth) == ScanFrom(s, offset, depth)
        decreases size + 4 - offset
      {
        var tag;
        tag, next := NextTag(offset);
        match tag {
          case Prop =>
          case Nop =>
          case BeginNode =>
            if depth.Some? {
              depth := Some(depth.value + 1);
            }
            return offset, depth;
          case EndNode =>
            if depth.Some? {
              depth := Some(depth.value - 1);
              if depth.value < 0 {
                return next, depth;
              }
            }
          case End =>
            if next >= 0 || (next == TRUNCATED && depth.None?) {
              return NOT_FOUND, depth;
            }
            return next, depth;
        }
        offset := next;
      }
    }

    /** Finds the end of the node at an offset. */
    method NodeEndOffset(start: int) returns (offset: int)
      requires Valid()
      ensures offset == NodeEnd(Struct(), start)
    {
      hide TagAt, ScanFrom, FdtWalk.EndFrom, FdtSpec.NextNode;
      var depth: int := 0;
      offset := start;
      ghost var s := Struct();
      while offset >= 0 && depth >= 0
        invariant s == Struct()
        invariant NodeEnd(s, start) == EndOfNode(s, offset, depth)
        decreases if offset < 0 || depth < 0 then 0 else if offset > size then 1 else size + 2 - offset
      {
        hide TagAt, ScanFrom, FdtWalk.EndFrom, FdtSpec.NextNode, NodeEnd, EndOfNode;
        EndStep(s, offset, depth);
        var d;
        offset, d := NextNode(offset, Some(depth));
        depth := d.value;
      }
    }

    /** Writes a NOP tag. */
    method StoreNop(at: nat)
      requires Valid() && at + 4 <= size
      modifies data
      ensures Struct() == Stored(old(Struct()), at) && SameAround(old(data[..]), data[..], base, size)
    {
      var p := base + at;
      ghost var was := data[..];
      data[p], data[p + 1], data[p + 2], data[p + 3] := 0, 0, 0, 4;
      hide SameAround, Stored;
      StoredAround(was, data[..], base, size, at);
      assert Struct() == data[..][base..base + size];
    }

    /** Overwrites a region with NOP tags, a word at a time. */
    method NopRegion(start: nat, len: nat)
      requires Valid() && start + len <= size && len % 4 == 0
      modifies data
      ensures Struct() == FdtDelete.NopRegion(old(Struct()), start, len)
      ensures SameAround(old(data[..]), data[..], base, size)
    {
      hide FdtDelete.NopRegion, Stored, SameAround;
      var p := 0;
      ghost var s, was := Struct(), data[..];
      NopNone(s, start);
      Unwritten(was, base, size);
      while p < len
        invariant 0 <= p <= len && p % 4 == 0
        invariant Struct() == FdtDelete.NopRegion(s, start, p)
        invariant SameAround(was, data[..], base, size)
      {
        NopOneMore(s, start, p);
        ghost var before := data[..];
        StoreNop(start + p);
        AroundTrans(was, before, data[..], base, size);
        p := p + 4;
      }
    }

    /** Deletes the node at an offset in place. */
    method NopNode(nodeOffset: int) returns (r: int)
      requires Valid()
      modifies data
      ensures r == if NodeEnd(old(Struct()), nodeOffset) < 0 then NodeEnd(old(Struct()), nodeOffset) else 0
      ensures Struct() == Nopped(old(Struct()), nodeOffset)
      ensures SameAround(old(data[..]), data[..], base, size)
      ensures RemovesSubtree(old(Struct()), Struct(), nodeOffset)
    {
      hide FdtDelete.NopRegion, SameAround, NodeEnd, RemovesSubtree;
      Unwritten(data[..], base, size);
      BlocksRemoved(Struct(), nodeOffset);
      var endOffset := NodeEndOffset(nodeOffset);
      if endOffset < 0 {
        return endOffset;
      }
      NopRegion(nodeOffset, endOffset - nodeOffset);
      r := 0;
    }
  }

  /** What the search gives from an offset and a depth; an error or a negative depth ends it. */
  function EndOfNode(s: seq<Byte>, offset: int, depth: int): int {
    if offset < 0 || depth < 0 then offset
    else if offset % 4 != 0 || !TagAt(s, offset).0.BeginNode? then BAD_OFFSET
    else EndFrom(s, TagAt(s, offset).1, depth)
  }

  /** One step of the search keeps what it gives, and goes forward while it goes on. */
  lemma EndStep(s: seq<Byte>, offset: nat, depth: nat)
    ensures var (offset', d) := FdtSpec.NextNode(s, offset, Some(depth));
      && d.Some? && EndOfNode(s, offset, depth) == EndOfNode(s, offset', d.value)
      && (offset' >= 0 && d.value >= 0 ==> offset < offset' <= |s|)
  {
    hide TagAt, EndFrom;
    if offset % 4 == 0 && TagAt(s, offset).0.BeginNode? {
      hide ScanFrom;
      var next := TagAt(s, offset).1;
      assert EndFrom(s, next, depth) == EndOfNode(s, ScanFrom(s, next, Some(depth)).0, ScanFrom(s, next, Some(depth)).1.value) by {
        EndFromStep(s, next, depth);
      }
    }
  }

  lemma EndFromStep(s: seq<Byte>, off: nat, depth: nat)
    requires off % 4 == 0
    ensures var (offset, d) := ScanFrom(s, off, Some(depth));
      EndFrom(s, off, depth) == EndOfNode(s, offset, d.value)
  {
    hide TagAt, ScanFrom;
  }

  lemma {:induction false} NopBytesSnoc(n: nat)
    ensures NopBytes(n + 1) == NopBytes(n) + TagBytes(4)
  {
    if n > 0 {
      NopBytesSnoc(n - 1);
    }
  }

  lemma NopNone(s: seq<Byte>, start: nat)
    requires start <= |s|
    ensures FdtDelete.NopRegion(s, start, 0) == s
  {
  }

  lemma NopOneMore(s: seq<Byte>, start: nat, p: nat)
    requires start + p + 4 <= |s| && p % 4 == 0
    ensures FdtDelete.NopRegion(s, start, p + 4) == Stored(FdtDelete.NopRegion(s, start, p), start + p)
  {
    NopBytesSnoc(p / 4);
    var before := FdtDelete.NopRegion(s, start, p);
    assert before[..start + p] == s[..start] + NopBytes(p / 4);
    assert before[start + p + 4..] == s[start + (p + 4)..];
  }

  /**
   Deleting a node of a block in place: the search finds the end of its encoding, the bytes
   become the encoding of the tree with fillers in its place, and a full walk then visits
   the same nodes at the same depths, except those of the deleted subtree.
   */
  lemma NopNodeRemovesSubtree(s: seq<Byte>, items: Items, target: nat)
    requires IsBlock(s, items) && FindNode(items, 0, target).Some?
    ensures var node := FindNode(items, 0, target).value;
      && ValidItem(node) && NodeEnd(s, target) == target + |EncodeItem(node)|
      && IsBlock(Nopped(s, target), Delete(items, 0, target))
      && FullWalk(Nopped(s, target)) == Outside(FullWalk(s), target, target + |EncodeItem(node)|)
  {
    hide *;
    BlockIsValid(s, items);
    EndOfFound(s, items, target);
    NoppedIsBlock(s, items, target);
    FullWalkListsNodes(s, items);
    FullWalkListsNodes(Nopped(s, target), Delete(items, 0, target));
    DeleteLists(items, 0, target, 0);
  }

  /** For every tree that a block encodes with a node at an offset, the new block encodes it without the node. */
  ghost predicate RemovesSubtree(s: seq<Byte>, s': seq<Byte>, target: int) {
    forall items :: target >= 0 && IsBlock(s, items) && FindNode(items, 0, target).Some? ==>
      && NodeEnd(s, target) >= 0 && IsBlock(s', Delete(items, 0, target))
      && FullWalk(s') == Outside(FullWalk(s), target, NodeEnd(s, target))
  }

  lemma BlocksRemoved(s: seq<Byte>, target: int)
    ensures RemovesSubtree(s, Nopped(s, target), target)
  {
    hide FindNode, Delete, FullWalk, Outside, NodeEnd, Nopped, At, Encode, EncodeItem;
    forall items | target >= 0 && IsBlock(s, items) && FindNode(items, 0, target).Some?
      ensures NodeEnd(s, target) >= 0 && IsBlock(Nopped(s, target), Delete(items, 0, target))
           && FullWalk(Nopped(s, target)) == Outside(FullWalk(s), target, NodeEnd(s, target))
    {
      NopNodeRemovesSubtree(s, items, target);
    }
  }

  lemma BlockIsValid(s: seq<Byte>, items: Items)
    requires IsBlock(s, items)
    ensures Valid(items)
  {
  }

  lemma EndOfFound(s: seq<Byte>, items: Items, target: nat)
    requires IsBlock(s, items) && FindNode(items, 0, target).Some?
    ensures var node := FindNode(items, 0, target).value;
      && ValidItem(node) && NodeEnd(s, target) == target + |EncodeItem(node)|
  {
    hide TagAt, EndFrom, EncodeItem, Encode, FindNode, At;
    FoundInside(items, 0, target);
    BlockPrefix(s, items);
    FoundAt(s, items, 0, target);
    NodeEndIsPastNode(s, target, FindNode(items, 0, target).value);
  }

  lemma NoppedIsBlock(s: seq<Byte>, items: Items, target: nat)
    requires IsBlock(s, items) && FindNode(items, 0, target).Some?
    ensures IsBlock(Nopped(s, target), Delete(items, 0, target))
  {
    hide TagAt, EndFrom, EncodeItem, Encode, FindNode, At, Delete, NodeEnd, IsBlock, FdtDelete.NopRegion;
    EndOfFound(s, items, target);
    BlockIsValid(s, items);
    BlockPrefix(s, items);
    FoundInside(items, 0, target);
    DeleteEncodes(items, 0, target);
    var len := |EncodeItem(FindNode(items, 0, target).value)|;
    RegionInPrefix(Encode(items), s[|Encode(items)|..], target, len);
    BlockOf(Nopped(s, target), Delete(items, 0, target), s[|Encode(items)|..]);
  }

  lemma BlockPrefix(s: seq<Byte>, items: Items)
    requires IsBlock(s, items)
    ensures |Encode(items)| + 4 <= |s| && At(s, 0, Encode(items))
    ensures s == Encode(items) + s[|Encode(items)|..] && s[|Encode(items)|..][..4] == TagBytes(9)
  {
    hide Encode;
    AtSplit(s, 0, Encode(items), TagBytes(9));
    assert s[..|Encode(items)|] == Encode(items);
  }

  lemma BlockOf(s: seq<Byte>, items: Items, rest: seq<Byte>)
    requires Valid(items) && s == Encode(items) + rest && |rest| >= 4 && rest[..4] == TagBytes(9)
    ensures IsBlock(s, items)
  {
    hide Encode;
    assert s[0..0 + |Encode(items) + TagBytes(9)|] == Encode(items) + rest[..4];
  }

  /** A found node is encoded where it was looked for. */
  lemma {:induction false} FoundAt(s: seq<Byte>, items: Items, off: nat, target: nat)
    requires Valid(items) && off % 4 == 0 && At(s, off, Encode(items)) && FindNode(items, off, target).Some?
    ensures var node := FindNode(items, off, target).value; ValidItem(node) && At(s, target, EncodeItem(node))
    decreases items
  {
    hide EncodeItem, NodeHeader, At, TagAt;
    var head := items.head;
    ItemsParts(s, off, items);
    if head.Node? && off == target {
    } else if target < off + |EncodeItem(head)| {
      NodeParts(s, off, head);
      FoundAt(s, head.body, off + |NodeHeader(head.name, head.pad)|, target);
    } else {
      FoundAt(s, items.tail, off + |EncodeItem(head)|, target);
    }
  }
}
