/** The tag reader and the node walk on encoded trees. */
module FdtWalk {
  import opened Options
  import opened FdtSpec

  /** Bytes at an offset. */
  predicate At(s: seq<Byte>, off: nat, bytes: seq<Byte>) {
    off + |bytes| <= |s| && s[off..off + |bytes|] == bytes
  }

  lemma AtIndex(s: seq<Byte>, off: nat, bytes: seq<Byte>, i: nat)
    requires At(s, off, bytes) && i < |bytes|
    ensures s[off + i] == bytes[i]
  {
    assert s[off..off + |bytes|][i] == bytes[i];
  }

  lemma AtSplit(s: seq<Byte>, off: nat, a: seq<Byte>, b: seq<Byte>)
    requires At(s, off, a + b)
    ensures At(s, off, a) && At(s, off + |a|, b)
  {
    var whole := s[off..off + |a + b|];
    assert whole[..|a|] == a && whole[|a|..] == b;
    assert s[off..off + |a|] == whole[..|a|];
    assert s[off + |a|..off + |a| + |b|] == whole[|a|..];
  }

  // ----- The tag reader on encoded tags -----

  lemma TagWord(s: seq<Byte>, off: nat, t: int)
    requires 0 <= t < 256 && At(s, off, TagBytes(t))
    ensures Be32(s, off) == t
  {
    AtIndex(s, off, TagBytes(t), 0);
    AtIndex(s, off, TagBytes(t), 1);
    AtIndex(s, off, TagBytes(t), 2);
    AtIndex(s, off, TagBytes(t), 3);
  }

  lemma Be32OfBytes(s: seq<Byte>, off: nat, n: nat)
    requires n < 0x1_0000_0000 && At(s, off, Be32Bytes(n))
    ensures Be32(s, off) == n
  {
    var b := Be32Bytes(n);
    AtIndex(s, off, b, 0);
    AtIndex(s, off, b, 1);
    AtIndex(s, off, b, 2);
    AtIndex(s, off, b, 3);
    DigitsOf(n);
  }

  lemma DigitsOf(n: nat)
    requires n < 0x1_0000_0000
    ensures ((n / 0x100_0000 * 256 + n / 0x1_0000 % 256) * 256 + n / 0x100 % 256) * 256 + n % 256 == n
  {
  }

  lemma AlignExact(off: nat, end: nat, pad: nat)
    requires off % 4 == 0 && pad < 4 && (end + pad) % 4 == 0
    ensures Align(end) == end + pad
  {
  }

  lemma PlainTag(s: seq<Byte>, off: nat, t: int)
    requires off % 4 == 0 && t in {2, 4, 9} && At(s, off, TagBytes(t))
    ensures TagAt(s, off) == (if t == 2 then EndNode else if t == 4 then Nop else End, off + 4)
  {
    TagWord(s, off, t);
  }

  lemma PropertyTag(s: seq<Byte>, off: nat, item: Item)
    requires off % 4 == 0 && item.Property? && ValidItem(item) && At(s, off, EncodeItem(item))
    ensures TagAt(s, off) == (Prop, off + |EncodeItem(item)|)
  {
    hide TagAt, Encode, Align, At, ValidItem, EncodeItem;
    PropertyRead(s, off, item);
    PropertyPad(item);
    PropertyAligned(off, |item.data|, |item.pad|);
    PropertyBytes(item);
  }

  lemma PropertyRead(s: seq<Byte>, off: nat, item: Item)
    requires item.Property? && ValidItem(item) && At(s, off, EncodeItem(item))
    ensures TagAt(s, off) == (Prop, Align(off + 12 + |item.data|))
  {
    PropertyPad(item);
    hide TagAt, Be32, Encode, Align, At, EncodeItem, ValidItem, TagBytes, Be32Bytes;
    PropertyParts(s, off, item);
    TagWord(s, off, 3);
    Be32OfBytes(s, off + 4, |item.data|);
    PropTag(s, off, |item.data|);
  }

  lemma PropTag(s: seq<Byte>, off: nat, len: nat)
    requires off + 12 + len <= |s| && Be32(s, off) == 3 && Be32(s, off + 4) == len
    ensures TagAt(s, off) == (Prop, Align(off + 12 + len))
  {
    hide Be32, Align;
  }

  /** The parts of an encoded property. */
  lemma PropertyAligned(off: nat, len: nat, pad: nat)
    requires off % 4 == 0 && pad < 4 && (len + pad) % 4 == 0
    ensures Align(off + 12 + len) == off + 12 + len + pad
  {
    AlignExact(off, off + 12 + len, pad);
  }

  lemma PropertyPad(item: Item)
    requires item.Property? && ValidItem(item)
    ensures |item.data| < 0x1_0000_0000 && |item.pad| < 4 && (|item.data| + |item.pad|) % 4 == 0
  {
  }

  lemma PropertyParts(s: seq<Byte>, off: nat, item: Item)
    requires item.Property? && ValidItem(item) && At(s, off, EncodeItem(item))
    ensures At(s, off, TagBytes(3)) && At(s, off + 4, Be32Bytes(|item.data|))
    ensures |EncodeItem(item)| == 12 + |item.data| + |item.pad| && off + |EncodeItem(item)| <= |s|
  {
    AtFits(s, off, EncodeItem(item));
    PropertyBytes(item);
    hide At, EncodeItem, TagBytes, Be32Bytes, ValidItem;
    var head, length := TagBytes(3), Be32Bytes(|item.data|);
    var rest := item.nameOffset + item.data + item.pad;
    AtSplit(s, off, head, length + rest);
    AtSplit(s, off + 4, length, rest);
  }

  lemma AtFits(s: seq<Byte>, off: nat, bytes: seq<Byte>)
    requires At(s, off, bytes)
    ensures off + |bytes| <= |s|
  {
  }

  lemma PropertyBytes(item: Item)
    requires item.Property? && ValidItem(item)
    ensures |item.data| < 0x1_0000_0000 && |TagBytes(3)| == 4 && |Be32Bytes(|item.data|)| == 4
    ensures EncodeItem(item) == TagBytes(3) + (Be32Bytes(|item.data|) + (item.nameOffset + item.data + item.pad))
    ensures |EncodeItem(item)| == 12 + |item.data| + |item.pad|
  {
    var head, length := TagBytes(3), Be32Bytes(|item.data|);
    hide TagBytes, Be32Bytes;
    assert head + length + item.nameOffset + item.data + item.pad == head + (length + (item.nameOffset + item.data + item.pad));
  }

  lemma NodeTag(s: seq<Byte>, off: nat, name: seq<Byte>, pad: seq<Byte>)
    requires off % 4 == 0 && 0 !in name && |pad| < 4 && (|name| + 1 + |pad|) % 4 == 0
    requires At(s, off, NodeHeader(name, pad))
    ensures TagAt(s, off) == (BeginNode, off + |NodeHeader(name, pad)|)
  {
    var head, rest := TagBytes(1), name + [0] + pad;
    assert NodeHeader(name, pad) == head + rest;
    AtSplit(s, off, head, rest);
    TagWord(s, off, 1);
    NameEnds(s, off + 4, name, pad);
    AlignExact(off, off + 4 + |name| + 1, |pad|);
  }

  lemma NameEnds(s: seq<Byte>, off: nat, name: seq<Byte>, pad: seq<Byte>)
    requires 0 !in name && At(s, off, name + [0] + pad)
    ensures NulFrom(s, off) == Some(off + |name|)
  {
    var bytes := name + [0] + pad;
    AtIndex(s, off, bytes, |name|);
    forall j | off <= j < off + |name|
      ensures s[j] != 0
    {
      AtIndex(s, off, bytes, j - off);
      assert bytes[j - off] == name[j - off] && name[j - off] in name;
    }
    FirstNul(s, off, off + |name|);
  }

  lemma {:induction false} FirstNul(s: seq<Byte>, off: nat, nul: nat)
    requires off <= nul < |s| && s[nul] == 0 && forall j :: off <= j < nul ==> s[j] != 0
    ensures NulFrom(s, off) == Some(nul)
    decreases nul - off
  {
    if off < nul {
      FirstNul(s, off + 1, nul);
    }
  }

  /** The parts of an encoded node. */
  lemma NodeParts(s: seq<Byte>, off: nat, item: Item)
    requires off % 4 == 0 && item.Node? && ValidItem(item) && At(s, off, EncodeItem(item))
    ensures var body := off + |NodeHeader(item.name, item.pad)|;
      && TagAt(s, off) == (BeginNode, body) && body % 4 == 0
      && At(s, body, Encode(item.body))
      && TagAt(s, body + |Encode(item.body)|) == (EndNode, off + |EncodeItem(item)|)
      && off + |EncodeItem(item)| == body + |Encode(item.body)| + 4
  {
    hide TagAt, Encode, At;
    var header, body, end := NodeHeader(item.name, item.pad), Encode(item.body), TagBytes(2);
    assert EncodeItem(item) == header + (body + end);
    AtSplit(s, off, header, body + end);
    AtSplit(s, off + |header|, body, end);
    NodeTag(s, off, item.name, item.pad);
    EncodeAligned(item.body);
    assert |header| == 4 + (|item.name| + 1 + |item.pad|);
    PlainTag(s, off + |header| + |body|, 2);
  }

  lemma ItemsParts(s: seq<Byte>, off: nat, items: Items)
    requires items.Cons? && Valid(items) && off % 4 == 0 && At(s, off, Encode(items))
    ensures At(s, off, EncodeItem(items.head)) && At(s, off + |EncodeItem(items.head)|, Encode(items.tail))
    ensures (off + |EncodeItem(items.head)|) % 4 == 0
    ensures off + |Encode(items)| == off + |EncodeItem(items.head)| + |Encode(items.tail)|
  {
    AtSplit(s, off, EncodeItem(items.head), Encode(items.tail));
    EncodeItemAligned(items.head);
  }

  // ----- A full walk lists the nodes in document order -----

  lemma {:induction false} WalkItems(s: seq<Byte>, off: nat, items: Items, depth: nat)
    requires Valid(items) && off % 4 == 0 && At(s, off, Encode(items))
    ensures WalkFrom(s, off, depth) == Listing(items, off, depth) + WalkFrom(s, off + |Encode(items)|, depth)
    decreases items
  {
    hide WalkFrom, EncodeItem, ItemListing, At;
    if items.Cons? {
      ItemsParts(s, off, items);
      WalkItem(s, off, items.head, depth);
      WalkItems(s, off + |EncodeItem(items.head)|, items.tail, depth);
    }
  }

  lemma {:induction false} WalkItem(s: seq<Byte>, off: nat, item: Item, depth: nat)
    requires ValidItem(item) && off % 4 == 0 && At(s, off, EncodeItem(item))
    ensures WalkFrom(s, off, depth) == ItemListing(item, off, depth) + WalkFrom(s, off + |EncodeItem(item)|, depth)
    decreases item, 1
  {
    match item
    case Filler =>
      PlainTag(s, off, 4);
      WalkSkips(s, off, off + 4, depth);
    case Property(_, _, _) =>
      PropertyTag(s, off, item);
      WalkSkips(s, off, off + |EncodeItem(item)|, depth);
    case Node(name, pad, body) =>
      WalkNode(s, off, item, depth);
  }

  lemma {:induction false} WalkNode(s: seq<Byte>, off: nat, item: Item, depth: nat)
    requires item.Node? && ValidItem(item) && off % 4 == 0 && At(s, off, EncodeItem(item))
    ensures WalkFrom(s, off, depth) == ItemListing(item, off, depth) + WalkFrom(s, off + |EncodeItem(item)|, depth)
    decreases item, 0
  {
    hide WalkFrom, EncodeItem, At, TagAt, NodeHeader;
    NodeParts(s, off, item);
    var start := off + |NodeHeader(item.name, item.pad)|;
    WalkItems(s, start, item.body, depth + 1);
    WalkEnters(s, off, start, depth);
    WalkLeaves(s, start + |Encode(item.body)|, off + |EncodeItem(item)|, depth);
  }

  lemma WalkSkips(s: seq<Byte>, off: nat, next: nat, depth: int)
    requires TagAt(s, off) == (Nop, next) || TagAt(s, off) == (Prop, next)
    ensures WalkFrom(s, off, depth) == WalkFrom(s, next, depth)
  {
    hide TagAt;
  }

  lemma WalkEnters(s: seq<Byte>, off: nat, next: nat, depth: nat)
    requires TagAt(s, off) == (BeginNode, next)
    ensures WalkFrom(s, off, depth) == [Visit(off, depth + 1)] + WalkFrom(s, next, depth + 1)
  {
    hide TagAt;
  }

  lemma WalkLeaves(s: seq<Byte>, off: nat, next: nat, depth: nat)
    requires TagAt(s, off) == (EndNode, next)
    ensures WalkFrom(s, off, depth + 1) == WalkFrom(s, next, depth)
  {
    hide TagAt;
  }

  /** A structure block: the encoded items and the end tag, perhaps followed by other bytes. */
  predicate IsBlock(s: seq<Byte>, items: Items) {
    Valid(items) && At(s, 0, Encode(items) + TagBytes(9))
  }

  lemma WalkEnds(s: seq<Byte>, off: nat, next: nat, depth: int)
    requires TagAt(s, off) == (End, next)
    ensures WalkFrom(s, off, depth) == []
  {
    hide TagAt;
  }

  /** A full walk of a block lists its nodes in document order, with their depths. */
  lemma FullWalkListsNodes(s: seq<Byte>, items: Items)
    requires IsBlock(s, items)
    ensures FullWalk(s) == Listing(items, 0, 0)
  {
    hide TagAt, WalkFrom, WalkAfter, Encode, At, Listing;
    WalkAfterScans(s, -1, 0);
    AtSplit(s, 0, Encode(items), TagBytes(9));
    WalkItems(s, 0, items, 0);
    EncodeAligned(items);
    PlainTag(s, |Encode(items)|, 9);
    WalkEnds(s, |Encode(items)|, |Encode(items)| + 4, 0);
  }

  // ----- The end of a node -----

  /** What the search for the end of a node gives when it goes on from a tag. */
  function EndFrom(s: seq<Byte>, off: nat, depth: int): (end: int)
    ensures off % 4 == 0 && depth >= 0 && end >= 0 ==> off < end <= |s| && end % 4 == 0
    decreases |s| + 4 - off
  {
    var (offset, d) := ScanFrom(s, off, Some(depth));
    if offset >= 0 && d.value >= 0 then EndFrom(s, TagAt(s, offset).1, d.value) else offset
  }

  lemma EndSkips(s: seq<Byte>, off: nat, next: nat, depth: int)
    requires TagAt(s, off) == (Nop, next) || TagAt(s, off) == (Prop, next)
    ensures EndFrom(s, off, depth) == EndFrom(s, next, depth)
  {
    hide TagAt;
  }

  lemma EndEnters(s: seq<Byte>, off: nat, next: nat, depth: nat)
    requires TagAt(s, off) == (BeginNode, next)
    ensures EndFrom(s, off, depth) == EndFrom(s, next, depth + 1)
  {
    hide TagAt;
  }

  lemma EndLeaves(s: seq<Byte>, off: nat, next: nat, depth: nat)
    requires TagAt(s, off) == (EndNode, next)
    ensures EndFrom(s, off, depth) == if depth == 0 then next else EndFrom(s, next, depth - 1)
  {
    hide TagAt;
  }

  lemma {:induction false} EndItems(s: seq<Byte>, off: nat, items: Items, depth: nat)
    requires Valid(items) && off % 4 == 0 && At(s, off, Encode(items))
    ensures EndFrom(s, off, depth) == EndFrom(s, off + |Encode(items)|, depth)
    decreases items
  {
    hide EndFrom, EncodeItem, At;
    if items.Cons? {
      ItemsParts(s, off, items);
      EndItem(s, off, items.head, depth);
      EndItems(s, off + |EncodeItem(items.head)|, items.tail, depth);
    }
  }

  lemma {:induction false} EndItem(s: seq<Byte>, off: nat, item: Item, depth: nat)
    requires ValidItem(item) && off % 4 == 0 && At(s, off, EncodeItem(item))
    ensures EndFrom(s, off, depth) == EndFrom(s, off + |EncodeItem(item)|, depth)
    decreases item
  {
    hide EndFrom, TagAt, At, Encode;
    match item
    case Filler =>
      PlainTag(s, off, 4);
      EndSkips(s, off, off + 4, depth);
    case Property(_, _, _) =>
      PropertyTag(s, off, item);
      EndSkips(s, off, off + |EncodeItem(item)|, depth);
    case Node(name, pad, body) =>
      NodeParts(s, off, item);
      var start := off + |NodeHeader(name, pad)|;
      EndEnters(s, off, start, depth);
      EndItems(s, start, body, depth + 1);
      EndLeaves(s, start + |Encode(body)|, off + |EncodeItem(item)|, depth + 1);
  }

  /** From an encoded node, the search ends just past the end tag that matches its start. */
  lemma NodeEndIsPastNode(s: seq<Byte>, off: nat, node: Item)
    requires node.Node? && ValidItem(node) && off % 4 == 0 && At(s, off, EncodeItem(node))
    ensures TagAt(s, off).0.BeginNode?
    ensures EndFrom(s, TagAt(s, off).1, 0) == off + |EncodeItem(node)|
  {
    hide TagAt, EndFrom, Encode, EncodeItem, At;
    NodeParts(s, off, node);
    var start := off + |NodeHeader(node.name, node.pad)|;
    EndItems(s, start, node.body, 0);
    EndLeaves(s, start + |Encode(node.body)|, off + |EncodeItem(node)|, 0);
  }
}
