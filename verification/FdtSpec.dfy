/**
 The structure block of a flattened device tree, version 17: what one step of the tag
 reader and of the node walk does with arbitrary bytes, and how trees are encoded
 (Devicetree Specification v0.4, section 5.4).
 */
module FdtSpec {
  import opened Options

  type Byte = b: int | 0 <= b < 256

  datatype Tag = BeginNode | EndNode | Prop | Nop | End

  const NOT_FOUND: int := -1
  const BAD_OFFSET: int := -4
  const TRUNCATED: int := -8
  const BAD_STRUCTURE: int := -11

  // ----- One step -----

  function Be32(s: seq<Byte>, off: nat): nat
    requires off + 4 <= |s|
  {
    var a: int, b: int, c: int, d: int := s[off], s[off + 1], s[off + 2], s[off + 3];
    ((a * 256 + b) * 256 + c) * 256 + d
  }

  function Align(off: nat): (r: nat)
    ensures r % 4 == 0 && off <= r < off + 4
  {
    (off + 3) / 4 * 4
  }

  /** The first NUL byte from an offset on. */
  function NulFrom(s: seq<Byte>, off: nat): (r: Option<nat>)
    ensures r.Some? ==> off <= r.value < |s| && s[r.value] == 0 && forall i :: off <= i < r.value ==> s[i] != 0
    ensures r.None? ==> forall i :: off <= i < |s| ==> s[i] != 0
    decreases |s| - off
  {
    if off >= |s| then None else if s[off] == 0 then Some(off) else NulFrom(s, off + 1)
  }

  /** The tag at an offset and the offset of the next tag; an error is an End tag with a negative offset. */
  function TagAt(s: seq<Byte>, off: nat): (r: (Tag, int))
    ensures !r.0.End? ==> off < r.1 < |s| + 4 && off + 4 <= |s|
    ensures r.1 >= 0 ==> r.1 % 4 == 0
  {
    if off + 4 > |s| then (End, TRUNCATED)
    else
      match Be32(s, off)
      case 1 =>
        var nul := NulFrom(s, off + 4);
        if nul.None? then (End, BAD_STRUCTURE) else (BeginNode, Align(nul.value + 1))
      case 2 => (EndNode, Align(off + 4))
      case 3 =>
        if off + 8 > |s| then (End, BAD_STRUCTURE)
        else
          var end := off + 12 + Be32(s, off + 4);
          if end > |s| then (End, BAD_STRUCTURE) else (Prop, Align(end))
      case 4 => (Nop, Align(off + 4))
      case 9 => (End, Align(off + 4))
      case _ => (End, BAD_STRUCTURE)
  }

  /** The next node from a tag on, and the depth there; past the end of the starting node the depth is negative. */
  function ScanFrom(s: seq<Byte>, off: nat, depth: Option<int>): (r: (int, Option<int>))
    ensures r.1.Some? <==> depth.Some?
    ensures r.0 >= 0 && !(r.1.Some? && r.1.value < 0) ==>
              r.0 >= off && TagAt(s, r.0).0.BeginNode? && (off % 4 == 0 ==> r.0 % 4 == 0)
    ensures r.0 >= 0 && off % 4 == 0 && depth.Some? && depth.value >= 0 && r.1.value < 0 ==> off < r.0 <= |s| && r.0 % 4 == 0
    ensures depth.Some? && r.0 >= 0 && r.1.value < 0 && depth.value >= 0 ==> r.1.value == -1
    decreases |s| + 4 - off
  {
    var (tag, next) := TagAt(s, off);
    match tag
    case Prop => ScanFrom(s, next, depth)
    case Nop => ScanFrom(s, next, depth)
    case BeginNode => (off, if depth.Some? then Some(depth.value + 1) else None)
    case EndNode =>
      if depth.Some? && depth.value - 1 < 0 then (next, Some(depth.value - 1))
      else ScanFrom(s, next, if depth.Some? then Some(depth.value - 1) else None)
    case End =>
      (if next >= 0 || (next == TRUNCATED && depth.None?) then NOT_FOUND else next, depth)
  }

  function NextNode(s: seq<Byte>, offset: int, depth: Option<int>): (int, Option<int>) {
    if offset < 0 then ScanFrom(s, 0, depth)
    else if offset % 4 != 0 || !TagAt(s, offset).0.BeginNode? then (BAD_OFFSET, depth)
    else ScanFrom(s, TagAt(s, offset).1, depth)
  }

  // ----- Trees and their encoding -----

  datatype Items = Nil | Cons(head: Item, tail: Items)

  datatype Item =
    | Property(nameOffset: seq<Byte>, data: seq<Byte>, pad: seq<Byte>)
    | Filler
    | Node(name: seq<Byte>, pad: seq<Byte>, body: Items)

  predicate Valid(items: Items) {
    items.Cons? ==> ValidItem(items.head) && Valid(items.tail)
  }

  predicate ValidItem(item: Item) {
    match item
    case Filler => true
    case Property(nameOffset, data, pad) =>
      |nameOffset| == 4 && |data| < 0x1_0000_0000 && |pad| < 4 && (|data| + |pad|) % 4 == 0
    case Node(name, pad, body) =>
      0 !in name && |pad| < 4 && (|name| + 1 + |pad|) % 4 == 0 && Valid(body)
  }

  function TagBytes(t: int): seq<Byte>
    requires 0 <= t < 256
  {
    [0, 0, 0, t]
  }

  function Be32Bytes(n: nat): seq<Byte>
    requires n < 0x1_0000_0000
  {
    [n / 0x100_0000, n / 0x1_0000 % 256, n / 0x100 % 256, n % 256]
  }

  function NodeHeader(name: seq<Byte>, pad: seq<Byte>): seq<Byte> {
    TagBytes(1) + name + [0] + pad
  }

  function EncodeItem(item: Item): seq<Byte>
    requires ValidItem(item)
  {
    match item
    case Filler => TagBytes(4)
    case Property(nameOffset, data, pad) => TagBytes(3) + Be32Bytes(|data|) + nameOffset + data + pad
    case Node(name, pad, body) => NodeHeader(name, pad) + Encode(body) + TagBytes(2)
  }

  function Encode(items: Items): seq<Byte>
    requires Valid(items)
  {
    if items.Nil? then [] else EncodeItem(items.head) + Encode(items.tail)
  }

  lemma {:induction false} EncodeAligned(items: Items)
    requires Valid(items)
    ensures |Encode(items)| % 4 == 0
  {
    if items.Cons? {
      EncodeItemAligned(items.head);
      EncodeAligned(items.tail);
    }
  }

  lemma {:induction false} EncodeItemAligned(item: Item)
    requires ValidItem(item)
    ensures |EncodeItem(item)| % 4 == 0 && |EncodeItem(item)| >= 4
  {
    match item
    case Filler =>
    case Property(nameOffset, data, pad) =>
      assert |EncodeItem(item)| == 12 + (|data| + |pad|);
      FourMore(|data| + |pad|, 0);
    case Node(name, pad, body) =>
      hide Valid;
      EncodeAligned(body);
      hide Encode;
      assert |EncodeItem(item)| == 4 + (|name| + 1 + |pad|) + |Encode(body)| + 4;
      FourMore(|name| + 1 + |pad|, |Encode(body)|);
  }

  lemma FourMore(a: nat, b: nat)
    requires a % 4 == 0 && b % 4 == 0
    ensures (12 + a) % 4 == 0 && (4 + a + b + 4) % 4 == 0
  {
  }

  // ----- The node listing of a tree -----

  /** A node of a walk: its offset and depth. */
  datatype Visit = Visit(offset: int, depth: int)

  /** The nodes of a list of items encoded at an offset, in document order. */
  function Listing(items: Items, off: nat, depth: int): seq<Visit>
    requires Valid(items)
  {
    if items.Nil? then []
    else ItemListing(items.head, off, depth) + Listing(items.tail, off + |EncodeItem(items.head)|, depth)
  }

  function ItemListing(item: Item, off: nat, depth: int): seq<Visit>
    requires ValidItem(item)
  {
    if item.Node? then [Visit(off, depth + 1)] + Listing(item.body, off + |NodeHeader(item.name, item.pad)|, depth + 1)
    else []
  }

  /** The nodes that a full walk visits from a tag on. */
  function WalkFrom(s: seq<Byte>, off: nat, depth: int): seq<Visit>
    decreases |s| + 4 - off
  {
    var (offset, d) := ScanFrom(s, off, Some(depth));
    if offset < 0 || d.value < 0 then []
    else [Visit(offset, d.value)] + WalkFrom(s, TagAt(s, offset).1, d.value)
  }

  lemma NextNodeForward(s: seq<Byte>, offset: int, depth: int)
    requires offset >= -1
    ensures var (next, d) := NextNode(s, offset, Some(depth));
      d.Some? && (next >= 0 && d.value >= 0 ==> offset < next <= |s|)
  {
    hide TagAt, ScanFrom;
  }

  /** The nodes that are visited after the one at an offset, when the next node is asked for again and again. */
  function WalkAfter(s: seq<Byte>, offset: int, depth: int): seq<Visit>
    requires offset >= -1
    decreases if offset < |s| then |s| - offset else 0
  {
    hide NextNode;
    NextNodeForward(s, offset, depth);
    var (next, d) := NextNode(s, offset, Some(depth));
    if next < 0 || d.value < 0 then [] else [Visit(next, d.value)] + WalkAfter(s, next, d.value)
  }

  /** A full walk. */
  function FullWalk(s: seq<Byte>): seq<Visit> {
    WalkAfter(s, -1, 0)
  }

  /** Asking for the next node again and again scans the tags once. */
  lemma {:induction false} WalkAfterScans(s: seq<Byte>, offset: int, depth: int)
    requires offset >= -1 && (offset >= 0 ==> offset % 4 == 0 && TagAt(s, offset).0.BeginNode?)
    ensures WalkAfter(s, offset, depth) == WalkFrom(s, if offset < 0 then 0 else TagAt(s, offset).1, depth)
    decreases if offset < |s| then |s| - offset else 0
  {
    hide TagAt, ScanFrom;
    NextNodeForward(s, offset, depth);
    var off := if offset < 0 then 0 else TagAt(s, offset).1;
    assert NextNode(s, offset, Some(depth)) == ScanFrom(s, off, Some(depth));
    var (next, d) := ScanFrom(s, off, Some(depth));
    if next >= 0 && d.value >= 0 {
      WalkAfterScans(s, next, d.value);
    }
  }
}
