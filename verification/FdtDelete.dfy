/** Overwriting a node with NOP tags removes exactly its subtree from the tree. */
module FdtDelete {
  import opened Options
  import opened FdtSpec

  function NopBytes(n: nat): (r: seq<Byte>)
    ensures |r| == 4 * n
  {
    if n == 0 then [] else TagBytes(4) + NopBytes(n - 1)
  }

  /** The bytes with a region overwritten. */
  function NopRegion(s: seq<Byte>, from: nat, len: nat): (r: seq<Byte>)
    requires from + len <= |s| && len % 4 == 0
    ensures |r| == |s|
  {
    s[..from] + NopBytes(len / 4) + s[from + len..]
  }

  function Fillers(n: nat, tail: Items): Items {
    if n == 0 then tail else Cons(Filler, Fillers(n - 1, tail))
  }

  /** The node that is encoded at an offset, when the items are encoded at off. */
  function FindNode(items: Items, off: nat, target: nat): Option<Item>
    requires Valid(items)
  {
    if items.Nil? then None
    else if items.head.Node? && off == target then Some(items.head)
    else if target < off + |EncodeItem(items.head)| then
      if items.head.Node? then FindNode(items.head.body, off + |NodeHeader(items.head.name, items.head.pad)|, target)
      else None
    else FindNode(items.tail, off + |EncodeItem(items.head)|, target)
  }

  /** The tree in which fillers take the place of that node. */
  function Delete(items: Items, off: nat, target: nat): Items
    requires Valid(items)
  {
    if items.Nil? then items
    else if items.head.Node? && off == target then Fillers(|EncodeItem(items.head)| / 4, items.tail)
    else if target < off + |EncodeItem(items.head)| then
      if items.head.Node? then
        Cons(items.head.(body := Delete(items.head.body, off + |NodeHeader(items.head.name, items.head.pad)|, target)), items.tail)
      else items
    else Cons(items.head, Delete(items.tail, off + |EncodeItem(items.head)|, target))
  }

  // ----- Encoding -----

  lemma {:induction false} FillersEncode(n: nat, tail: Items)
    requires Valid(tail)
    ensures Valid(Fillers(n, tail)) && Encode(Fillers(n, tail)) == NopBytes(n) + Encode(tail)
  {
    if n > 0 {
      FillersEncode(n - 1, tail);
    }
  }

  lemma RegionInPrefix(a: seq<Byte>, b: seq<Byte>, from: nat, len: nat)
    requires from + len <= |a| && len % 4 == 0
    ensures NopRegion(a + b, from, len) == NopRegion(a, from, len) + b
  {
    assert (a + b)[..from] == a[..from];
    assert (a + b)[from + len..] == a[from + len..] + b;
  }

  lemma RegionInSuffix(a: seq<Byte>, b: seq<Byte>, from: nat, len: nat)
    requires |a| <= from && from + len <= |a + b| && len % 4 == 0
    ensures NopRegion(a + b, from, len) == a + NopRegion(b, from - |a|, len)
  {
    assert (a + b)[..from] == a + b[..from - |a|];
    assert (a + b)[from + len..] == b[from + len - |a|..];
  }

  /** A found node lies within the encoding. */
  lemma {:induction false} FoundInside(items: Items, off: nat, target: nat)
    requires Valid(items) && FindNode(items, off, target).Some? && off % 4 == 0
    ensures var node := FindNode(items, off, target).value;
      && node.Node? && ValidItem(node) && off <= target && target % 4 == 0
      && target + |EncodeItem(node)| <= off + |Encode(items)|
      && |EncodeItem(node)| % 4 == 0
    decreases items
  {
    hide EncodeItem, NodeHeader;
    var head := items.head;
    EncodeItemAligned(head);
    if head.Node? && off == target {
    } else if target < off + |EncodeItem(head)| {
      HeaderAligned(head);
      FoundInside(head.body, off + |NodeHeader(head.name, head.pad)|, target);
    } else {
      FoundInside(items.tail, off + |EncodeItem(head)|, target);
    }
  }

  lemma HeaderAligned(node: Item)
    requires node.Node? && ValidItem(node)
    ensures |NodeHeader(node.name, node.pad)| % 4 == 0
    ensures |EncodeItem(node)| == |NodeHeader(node.name, node.pad)| + |Encode(node.body)| + 4
  {
    assert |NodeHeader(node.name, node.pad)| == 4 + (|node.name| + 1 + |node.pad|);
  }

  /** Deleting in the tree is overwriting in the bytes. */
  lemma {:induction false} DeleteEncodes(items: Items, off: nat, target: nat)
    requires Valid(items) && FindNode(items, off, target).Some? && off % 4 == 0
    ensures var node := FindNode(items, off, target).value;
      && ValidItem(node) && off <= target && |EncodeItem(node)| % 4 == 0
      && target - off + |EncodeItem(node)| <= |Encode(items)|
      && Valid(Delete(items, off, target))
      && Encode(Delete(items, off, target)) == NopRegion(Encode(items), target - off, |EncodeItem(node)|)
    decreases items
  {
    hide EncodeItem, NopRegion, NodeHeader, Encode, NopBytes, Fillers, ValidItem;
    ItemsValid(items);
    FoundInside(items, off, target);
    var head, tail := items.head, items.tail;
    EncodeCons(items);
    var node := FindNode(items, off, target).value;
    var len := |EncodeItem(node)|;
    EncodeItemAligned(head);
    if head.Node? && off == target {
      FillersEncode(len / 4, tail);
      RegionWhole(EncodeItem(head), Encode(tail));
    } else if target < off + |EncodeItem(head)| {
      HeaderAligned(head);
      var start := off + |NodeHeader(head.name, head.pad)|;
      FoundInside(head.body, start, target);
      DeleteEncodes(head.body, start, target);
      DeleteInNode(head, Delete(head.body, start, target), target - start, len);
      EncodeCons(Delete(items, off, target));
      RegionInPrefix(EncodeItem(head), Encode(tail), target - off, len);
    } else {
      DeleteEncodes(tail, off + |EncodeItem(head)|, target);
      EncodeCons(Delete(items, off, target));
      RegionInSuffix(EncodeItem(head), Encode(tail), target - off, len);
    }
  }

  lemma ItemsValid(items: Items)
    requires Valid(items) && items.Cons?
    ensures ValidItem(items.head) && Valid(items.tail)
    ensures items.head.Node? ==> Valid(items.head.body)
  {
  }

  lemma EncodeCons(items: Items)
    requires Valid(items) && items.Cons?
    ensures Encode(items) == EncodeItem(items.head) + Encode(items.tail)
  {
  }

  lemma RegionWhole(a: seq<Byte>, b: seq<Byte>)
    requires |a| % 4 == 0
    ensures NopRegion(a + b, 0, |a|) == NopBytes(|a| / 4) + b
  {
    assert (a + b)[0 + |a|..] == b;
    assert (a + b)[..0] + NopBytes(|a| / 4) == NopBytes(|a| / 4);
  }

  lemma DeleteInNode(node: Item, body: Items, from: nat, len: nat)
    requires node.Node? && ValidItem(node) && Valid(body) && len % 4 == 0 && from + len <= |Encode(node.body)|
    requires Encode(body) == NopRegion(Encode(node.body), from, len)
    ensures ValidItem(node.(body := body))
    ensures var header := |NodeHeader(node.name, node.pad)|;
      && header + from + len <= |EncodeItem(node)|
      && EncodeItem(node.(body := body)) == NopRegion(EncodeItem(node), header + from, len)
  {
    hide NodeHeader, Encode, NopRegion, NopBytes;
    var header, end := NodeHeader(node.name, node.pad), TagBytes(2);
    assert EncodeItem(node) == header + (Encode(node.body) + end);
    assert EncodeItem(node.(body := body)) == header + (Encode(body) + end);
    RegionInPrefix(Encode(node.body), end, from, len);
    RegionInSuffix(header, Encode(node.body) + end, |header| + from, len);
  }

  // ----- Listing -----

  /** The visits whose offsets are outside a region. */
  function Outside(visits: seq<Visit>, from: nat, to: nat): seq<Visit> {
    if visits == [] then []
    else (if from <= visits[0].offset < to then [] else [visits[0]]) + Outside(visits[1..], from, to)
  }

  lemma {:induction false} OutsideAppend(a: seq<Visit>, b: seq<Visit>, from: nat, to: nat)
    ensures Outside(a + b, from, to) == Outside(a, from, to) + Outside(b, from, to)
  {
    if a == [] {
      assert a + b == b;
    } else {
      assert (a + b)[1..] == a[1..] + b;
      OutsideAppend(a[1..], b, from, to);
    }
  }

  predicate Within(visits: seq<Visit>, from: nat, to: nat) {
    forall i :: 0 <= i < |visits| ==> from <= visits[i].offset < to
  }

  lemma {:induction false} OutsideDisjoint(visits: seq<Visit>, lo: nat, hi: nat, from: nat, to: nat)
    requires Within(visits, lo, hi) && (hi <= from || to <= lo)
    ensures Outside(visits, from, to) == visits
  {
    if visits != [] {
      assert Within(visits[1..], lo, hi);
      OutsideDisjoint(visits[1..], lo, hi, from, to);
    }
  }

  lemma {:induction false} OutsideInner(visits: seq<Visit>, from: nat, to: nat)
    requires Within(visits, from, to)
    ensures Outside(visits, from, to) == []
  {
    if visits != [] {
      assert Within(visits[1..], from, to);
      OutsideInner(visits[1..], from, to);
    }
  }

  lemma {:induction false} ListingWithin(items: Items, off: nat, depth: int)
    requires Valid(items)
    ensures Within(Listing(items, off, depth), off, off + |Encode(items)|)
    decreases items
  {
    if items.Cons? {
      ItemListingWithin(items.head, off, depth);
      ListingWithin(items.tail, off + |EncodeItem(items.head)|, depth);
    }
  }

  lemma {:induction false} ItemListingWithin(item: Item, off: nat, depth: int)
    requires ValidItem(item)
    ensures Within(ItemListing(item, off, depth), off, off + |EncodeItem(item)|)
    decreases item
  {
    if item.Node? {
      HeaderAligned(item);
      ListingWithin(item.body, off + |NodeHeader(item.name, item.pad)|, depth + 1);
    }
  }

  lemma {:induction false} FillersList(n: nat, tail: Items, off: nat, depth: int)
    requires Valid(tail)
    ensures Valid(Fillers(n, tail)) && Listing(Fillers(n, tail), off, depth) == Listing(tail, off + 4 * n, depth)
  {
    FillersEncode(n, tail);
    if n > 0 {
      FillersEncode(n - 1, tail);
      FillersList(n - 1, tail, off + 4, depth);
    }
  }

  /** Deleting a node removes from the listing the nodes that lie in its encoding, and nothing else. */
  lemma {:induction false} DeleteLists(items: Items, off: nat, target: nat, depth: int)
    requires Valid(items) && FindNode(items, off, target).Some? && off % 4 == 0
    ensures Valid(Delete(items, off, target)) && ValidItem(FindNode(items, off, target).value)
    ensures Listing(Delete(items, off, target), off, depth)
         == Outside(Listing(items, off, depth), target, target + |EncodeItem(FindNode(items, off, target).value)|)
    decreases items, 0
  {
    hide Encode, EncodeItem, Outside, NodeHeader, ValidItem;
    ItemsValid(items);
    DeleteEncodes(items, off, target);
    FoundInside(items, off, target);
    var head, tail := items.head, items.tail;
    var next := off + |EncodeItem(head)|;
    var end := target + |EncodeItem(FindNode(items, off, target).value)|;
    EncodeItemAligned(head);
    OutsideAppend(ItemListing(head, off, depth), Listing(tail, next, depth), target, end);
    ListingWithin(tail, next, depth);
    ItemListingWithin(head, off, depth);
    if head.Node? && off == target {
      FillersList(|EncodeItem(head)| / 4, tail, off, depth);
      OutsideInner(ItemListing(head, off, depth), target, end);
      OutsideDisjoint(Listing(tail, next, depth), next, next + |Encode(tail)|, target, end);
    } else if target < next {
      DeleteInHead(head, off, target, end, depth);
      OutsideDisjoint(Listing(tail, next, depth), next, next + |Encode(tail)|, target, end);
    } else {
      DeleteLists(tail, next, target, depth);
      OutsideDisjoint(ItemListing(head, off, depth), off, next, target, end);
    }
  }

  lemma {:induction false} DeleteInHead(head: Item, off: nat, target: nat, end: nat, depth: int)
    requires ValidItem(head) && head.Node? && off < target && off % 4 == 0
    requires FindNode(head.body, off + |NodeHeader(head.name, head.pad)|, target).Some?
    requires ValidItem(FindNode(head.body, off + |NodeHeader(head.name, head.pad)|, target).value)
    requires end == target + |EncodeItem(FindNode(head.body, off + |NodeHeader(head.name, head.pad)|, target).value)|
    ensures var start := off + |NodeHeader(head.name, head.pad)|;
      var deleted := head.(body := Delete(head.body, start, target));
      && ValidItem(deleted) && |EncodeItem(deleted)| == |EncodeItem(head)|
      && end <= off + |EncodeItem(head)|
      && ItemListing(deleted, off, depth) == Outside(ItemListing(head, off, depth), target, end)
    decreases head.body, 1
  {
    hide EncodeItem, NodeHeader, Encode, NopRegion, Delete, FindNode, Listing;
    HeaderAligned(head);
    var start := off + |NodeHeader(head.name, head.pad)|;
    DeleteLists(head.body, start, target, depth + 1);
    DeleteEncodes(head.body, start, target);
    FoundInside(head.body, start, target);
    OutsideAppend([Visit(off, depth + 1)], Listing(head.body, start, depth + 1), target, end);
    DeleteInNode(head, Delete(head.body, start, target), target - start, end - target);
  }

  predicate Lists(visits: seq<Visit>, target: nat) {
    exists i :: 0 <= i < |visits| && visits[i].offset == target
  }

  lemma ListsAppend(a: seq<Visit>, b: seq<Visit>, target: nat)
    ensures Lists(a + b, target) <==> Lists(a, target) || Lists(b, target)
  {
    if Lists(a, target) {
      var i :| 0 <= i < |a| && a[i].offset == target;
      assert (a + b)[i].offset == target;
    }
    if Lists(b, target) {
      var i :| 0 <= i < |b| && b[i].offset == target;
      assert (a + b)[|a| + i].offset == target;
    }
  }

  lemma ListsWithin(visits: seq<Visit>, from: nat, to: nat, target: nat)
    requires Within(visits, from, to) && !(from <= target < to)
    ensures !Lists(visits, target)
  {
  }

  /** A node is found at exactly the offsets that the listing holds. */
  lemma {:induction false} FoundIffListed(items: Items, off: nat, target: nat, depth: int)
    requires Valid(items)
    ensures FindNode(items, off, target).Some? <==> Lists(Listing(items, off, depth), target)
    decreases items, 1
  {
    hide Lists, Within, ItemListing;
    if items.Cons? {
      var next := off + |EncodeItem(items.head)|;
      ListsAppend(ItemListing(items.head, off, depth), Listing(items.tail, next, depth), target);
      ItemListingWithin(items.head, off, depth);
      ListingWithin(items.tail, next, depth);
      if target < next {
        ListsWithin(Listing(items.tail, next, depth), next, next + |Encode(items.tail)|, target);
        FoundInHead(items, off, target, depth);
      } else {
        ListsWithin(ItemListing(items.head, off, depth), off, next, target);
        EncodeItemAligned(items.head);
        FoundIffListed(items.tail, next, target, depth);
      }
    } else {
      assert !Lists([], target) by { ListsNothing(target); }
    }
  }

  lemma ListsNothing(target: nat)
    ensures !Lists([], target)
  {
  }

  lemma ListsOne(visit: Visit, target: nat)
    ensures Lists([visit], target) <==> visit.offset == target
  {
    assert visit.offset == target ==> [visit][0].offset == target;
  }

  lemma {:induction false} FoundInHead(items: Items, off: nat, target: nat, depth: int)
    requires items.Cons? && Valid(items) && target < off + |EncodeItem(items.head)|
    ensures FindNode(items, off, target).Some? <==> Lists(ItemListing(items.head, off, depth), target)
    decreases items, 0
  {
    hide Lists, Within, Encode, EncodeItem, NodeHeader;
    var head := items.head;
    if head.Node? {
      var start := off + |NodeHeader(head.name, head.pad)|;
      FoundIffListed(head.body, start, target, depth + 1);
      ListsAppend([Visit(off, depth + 1)], Listing(head.body, start, depth + 1), target);
      ListsOne(Visit(off, depth + 1), target);
    } else {
      ListsNothing(target);
    }
  }
}
