/** Runs of the node walk with and without a depth, on encoded trees and on blocks that end before their end tag. */
module FdtRuns {
  import opened Options
  import opened FdtSpec
  import opened FdtWalk

  /** The offsets that a run visits, and the result that ends it. */
  datatype Run = Run(offsets: seq<int>, end: int)

  function Before(offsets: seq<int>, run: Run): Run {
    Run(offsets + run.offsets, run.end)
  }

  lemma BeforeBoth(a: seq<int>, b: seq<int>, run: Run)
    ensures Before(a + b, run) == Before(a, Before(b, run))
  {
    assert a + b + run.offsets == a + (b + run.offsets);
  }

  function Offsets(visits: seq<Visit>): seq<int> {
    if visits == [] then [] else [visits[0].offset] + Offsets(visits[1..])
  }

  lemma {:induction false} OffsetsAppend(a: seq<Visit>, b: seq<Visit>)
    ensures Offsets(a + b) == Offsets(a) + Offsets(b)
  {
    if a == [] {
      assert a + b == b;
    } else {
      assert (a + b)[1..] == a[1..] + b;
      OffsetsAppend(a[1..], b);
    }
  }

  // ----- Asking for the next node again and again -----

  predicate Stops(next: int, depth: Option<int>) {
    next < 0 || (depth.Some? && depth.value < 0)
  }

  lemma NextIsForward(s: seq<Byte>, offset: int, depth: Option<int>)
    requires offset >= -1
    ensures var (next, d) := NextNode(s, offset, depth); !Stops(next, d) ==> offset < next <= |s|
  {
    hide TagAt, ScanFrom;
  }

  /** The next node is asked for until there is none, or the walk leaves the node where it started. */
  function RunAfter(s: seq<Byte>, offset: int, depth: Option<int>): Run
    requires offset >= -1
    decreases if offset < |s| then |s| - offset else 0
  {
    hide NextNode;
    NextIsForward(s, offset, depth);
    var (next, d) := NextNode(s, offset, depth);
    if Stops(next, d) then Run([], next) else Before([next], RunAfter(s, next, d))
  }

  /** The same run, from a tag on. */
  function RunFrom(s: seq<Byte>, off: nat, depth: Option<int>): Run
    decreases |s| + 4 - off
  {
    var (next, d) := ScanFrom(s, off, depth);
    if Stops(next, d) then Run([], next) else Before([next], RunFrom(s, TagAt(s, next).1, d))
  }

  lemma {:induction false} RunAfterScans(s: seq<Byte>, offset: int, depth: Option<int>)
    requires offset >= -1 && (offset >= 0 ==> offset % 4 == 0 && TagAt(s, offset).0.BeginNode?)
    ensures RunAfter(s, offset, depth) == RunFrom(s, if offset < 0 then 0 else TagAt(s, offset).1, depth)
    decreases if offset < |s| then |s| - offset else 0
  {
    hide TagAt, ScanFrom;
    NextIsForward(s, offset, depth);
    var off := if offset < 0 then 0 else TagAt(s, offset).1;
    assert NextNode(s, offset, depth) == ScanFrom(s, off, depth);
    var (next, d) := ScanFrom(s, off, depth);
    if !Stops(next, d) {
      RunAfterScans(s, next, d);
    }
  }

  // ----- Single tags -----

  lemma RunSkips(s: seq<Byte>, off: nat, next: nat, depth: Option<int>)
    requires TagAt(s, off) == (Nop, next) || TagAt(s, off) == (Prop, next)
    ensures RunFrom(s, off, depth) == RunFrom(s, next, depth)
  {
    hide TagAt;
  }

  /** The depth a level deeper. */
  function Deeper(depth: Option<int>): Option<int> {
    if depth.Some? then Some(depth.value + 1) else None
  }

  predicate Inside(depth: Option<int>) {
    depth.Some? ==> depth.value >= 0
  }

  lemma RunEnters(s: seq<Byte>, off: nat, next: nat, depth: Option<int>)
    requires TagAt(s, off) == (BeginNode, next) && Inside(depth)
    ensures RunFrom(s, off, depth) == Before([off], RunFrom(s, next, Deeper(depth)))
  {
    hide TagAt;
  }

  lemma RunLeaves(s: seq<Byte>, off: nat, next: nat, depth: Option<int>)
    requires TagAt(s, off) == (EndNode, next) && Inside(depth)
    ensures RunFrom(s, off, Deeper(depth)) == RunFrom(s, next, depth)
  {
    hide TagAt;
  }

  // ----- Encoded trees -----

  lemma {:induction false} RunItems(s: seq<Byte>, off: nat, items: Items, depth: Option<int>, level: int)
    requires Valid(items) && off % 4 == 0 && At(s, off, Encode(items)) && Inside(depth)
    ensures RunFrom(s, off, depth) == Before(Offsets(Listing(items, off, level)), RunFrom(s, off + |Encode(items)|, depth))
    decreases items
  {
    hide RunFrom, EncodeItem, ItemListing, At, Inside;
    if items.Cons? {
      ItemsParts(s, off, items);
      var next := off + |EncodeItem(items.head)|;
      RunItem(s, off, items.head, depth, level);
      RunItems(s, next, items.tail, depth, level);
      OffsetsAppend(ItemListing(items.head, off, level), Listing(items.tail, next, level));
      BeforeBoth(Offsets(ItemListing(items.head, off, level)), Offsets(Listing(items.tail, next, level)),
                 RunFrom(s, off + |Encode(items)|, depth));
    }
  }

  lemma {:induction false} RunItem(s: seq<Byte>, off: nat, item: Item, depth: Option<int>, level: int)
    requires ValidItem(item) && off % 4 == 0 && At(s, off, EncodeItem(item)) && Inside(depth)
    ensures RunFrom(s, off, depth) == Before(Offsets(ItemListing(item, off, level)), RunFrom(s, off + |EncodeItem(item)|, depth))
    decreases item, 1
  {
    match item
    case Filler =>
      hide RunFrom, TagAt, Inside, At;
      PlainTag(s, off, 4);
      RunSkips(s, off, off + 4, depth);
    case Property(_, _, _) =>
      hide RunFrom, TagAt, Inside, At, EncodeItem;
      PropertyTag(s, off, item);
      RunSkips(s, off, off + |EncodeItem(item)|, depth);
    case Node(name, pad, body) =>
      RunNode(s, off, item, depth, level);
  }

  lemma {:induction false} RunNode(s: seq<Byte>, off: nat, item: Item, depth: Option<int>, level: int)
    requires item.Node? && ValidItem(item) && off % 4 == 0 && At(s, off, EncodeItem(item)) && Inside(depth)
    ensures RunFrom(s, off, depth) == Before(Offsets(ItemListing(item, off, level)), RunFrom(s, off + |EncodeItem(item)|, depth))
    decreases item, 0
  {
    hide RunFrom, EncodeItem, At, TagAt, NodeHeader, Listing;
    NodeParts(s, off, item);
    var start := off + |NodeHeader(item.name, item.pad)|;
    var rest := RunFrom(s, off + |EncodeItem(item)|, depth);
    RunItems(s, start, item.body, Deeper(depth), level + 1);
    RunEnters(s, off, start, depth);
    RunLeaves(s, start + |Encode(item.body)|, off + |EncodeItem(item)|, depth);
    OffsetsAppend([Visit(off, level + 1)], Listing(item.body, start, level + 1));
    BeforeBoth([off], Offsets(Listing(item.body, start, level + 1)), rest);
  }

  // ----- What ends a run -----

  /** What follows the items of a block. */
  datatype Tail =
    | EndTag
    | Cut          // fewer bytes than a tag
    | UnknownTag   // a word that is no tag
    | OpenName     // a node whose name has no end
    | LongProperty // a property whose head or data reaches beyond the block

  predicate HasTail(s: seq<Byte>, off: nat, tail: Tail) {
    match tail
    case Cut => |s| < off + 4
    case EndTag => off + 4 <= |s| && Be32(s, off) == 9
    case UnknownTag => off + 4 <= |s| && Be32(s, off) !in {1, 2, 3, 4, 9}
    case OpenName => off + 4 <= |s| && Be32(s, off) == 1 && forall i :: off + 4 <= i < |s| ==> s[i] != 0
    case LongProperty => off + 4 <= |s| && Be32(s, off) == 3 && (|s| < off + 8 || |s| < off + 12 + Be32(s, off + 4))
  }

  /**
   The result for a tail, as the number that the callers see: 1 for "not found", 8 for "truncated" and 11
   for "bad structure", negated. A block that is cut between two tags is an error only when a depth is asked for.
   */
  function Ending(tail: Tail, depth: Option<int>): int {
    match tail
    case EndTag => -1
    case Cut => if depth.None? then -1 else -8
    case _ => -11
  }

  lemma TailEnds(s: seq<Byte>, off: nat, tail: Tail, depth: Option<int>)
    requires HasTail(s, off, tail)
    ensures ScanFrom(s, off, depth) == (Ending(tail, depth), depth)
  {
    hide Be32;
  }

  /**
   Asking for the next node again and again, from before the first one, visits exactly the nodes of the
   tree in document order, with and without a depth; then it gives the result that the tail calls for.
   */
  lemma RunVisitsNodes(s: seq<Byte>, items: Items, tail: Tail, depth: Option<int>)
    requires Valid(items) && At(s, 0, Encode(items)) && HasTail(s, |Encode(items)|, tail) && Inside(depth)
    ensures RunAfter(s, -1, depth) == Run(Offsets(Listing(items, 0, 0)), Ending(tail, depth))
  {
    hide TagAt, Encode, At, Listing, HasTail, Ending, ScanFrom;
    RunAfterScans(s, -1, depth);
    RunItems(s, 0, items, depth, 0);
    TailEnds(s, |Encode(items)|, tail, depth);
    EndingIsError(tail, depth);
  }

  lemma EndingIsError(tail: Tail, depth: Option<int>)
    ensures Ending(tail, depth) < 0
  {
  }

  lemma {:induction false} RunStep(s: seq<Byte>, offset: int, k: nat)
    requires offset >= -1 && k <= |RunAfter(s, offset, None).offsets|
    ensures var run := RunAfter(s, offset, None);
      NextNode(s, if k == 0 then offset else run.offsets[k - 1], None).0 == if k < |run.offsets| then run.offsets[k] else run.end
    decreases k
  {
    hide NextNode;
    NextIsForward(s, offset, None);
    NextKeepsOption(s, offset, None);
    if k > 0 {
      RunStep(s, NextNode(s, offset, None).0, k - 1);
    }
  }

  lemma NextKeepsOption(s: seq<Byte>, offset: int, depth: Option<int>)
    ensures NextNode(s, offset, depth).1.None? <==> depth.None?
  {
  }

  /** In a complete block, without a depth, the next node is the next one of the listing, and none after the last. */
  lemma NextIsListed(s: seq<Byte>, items: Items, k: nat)
    requires IsBlock(s, items) && k <= |Offsets(Listing(items, 0, 0))|
    ensures var listed := Offsets(Listing(items, 0, 0));
      NextNode(s, if k == 0 then -1 else listed[k - 1], None).0 == if k < |listed| then listed[k] else NOT_FOUND
  {
    AtSplit(s, 0, Encode(items), TagBytes(9));
    TagWord(s, |Encode(items)|, 9);
    hide NextNode, Be32;
    RunVisitsNodes(s, items, EndTag, None);
    RunStep(s, -1, k);
  }

  // ----- With and without a depth -----

  /** The same tag is found without a depth as long as the depth does not become negative. */
  lemma {:induction false} ScanWithout(s: seq<Byte>, off: nat, depth: int)
    ensures var (next, d) := ScanFrom(s, off, Some(depth));
      d.value >= 0 ==> ScanFrom(s, off, None).0 == if next == TRUNCATED then NOT_FOUND else next
    decreases |s| + 4 - off
  {
    hide TagAt;
    var (tag, next) := TagAt(s, off);
    if tag.Prop? || tag.Nop? {
      ScanWithout(s, next, depth);
    } else if tag.EndNode? && depth - 1 >= 0 {
      ScanWithout(s, next, depth - 1);
    }
  }

  lemma NextWithout(s: seq<Byte>, offset: int, depth: int)
    ensures var (next, d) := NextNode(s, offset, Some(depth));
      d.value >= 0 ==> NextNode(s, offset, None).0 == if next == TRUNCATED then NOT_FOUND else next
  {
    hide TagAt, ScanFrom;
    if offset < 0 {
      ScanWithout(s, 0, depth);
    } else if offset % 4 == 0 && TagAt(s, offset).0.BeginNode? {
      ScanWithout(s, TagAt(s, offset).1, depth);
    }
  }

  // ----- Refused offsets and nodes without an end -----

  /** An offset is accepted if and only if it is aligned and begins a node with a name that ends. */
  lemma Refused(s: seq<Byte>, offset: nat, depth: Option<int>)
    ensures NextNode(s, offset, depth).0 == -4
       <==> offset % 4 != 0 || offset + 4 > |s| || s[offset..offset + 4] != TagBytes(1) || 0 !in s[offset + 4..]
  {
    BeginsNode(s, offset);
    hide TagAt;
    if offset % 4 == 0 && TagAt(s, offset).0.BeginNode? {
      ScanErrors(s, TagAt(s, offset).1, depth);
    }
  }

  lemma BeginsNode(s: seq<Byte>, off: nat)
    ensures TagAt(s, off).0.BeginNode? <==> off + 4 <= |s| && s[off..off + 4] == TagBytes(1) && 0 in s[off + 4..]
  {
    if off + 4 <= |s| {
      WordIsBegin(s, off);
      hide Be32;
      NameHasEnd(s, off + 4);
    }
  }

  lemma WordIsBegin(s: seq<Byte>, off: nat)
    requires off + 4 <= |s|
    ensures Be32(s, off) == 1 <==> s[off..off + 4] == TagBytes(1)
  {
    var bytes := s[off..off + 4];
    assert bytes == [s[off], s[off + 1], s[off + 2], s[off + 3]];
  }

  lemma NameHasEnd(s: seq<Byte>, off: nat)
    requires off <= |s|
    ensures NulFrom(s, off).Some? <==> 0 in s[off..]
  {
    if NulFrom(s, off).Some? {
      assert s[off..][NulFrom(s, off).value - off] == 0;
    }
  }

  lemma {:induction false} ScanErrors(s: seq<Byte>, off: nat, depth: Option<int>)
    ensures ScanFrom(s, off, depth).0 >= 0 || ScanFrom(s, off, depth).0 in {NOT_FOUND, TRUNCATED, BAD_STRUCTURE}
    decreases |s| + 4 - off
  {
    TagErrors(s, off);
    hide TagAt;
    var (tag, next) := TagAt(s, off);
    if tag.Prop? || tag.Nop? {
      ScanErrors(s, next, depth);
    } else if tag.EndNode? && !(depth.Some? && depth.value - 1 < 0) {
      ScanErrors(s, next, if depth.Some? then Some(depth.value - 1) else None);
    }
  }

  lemma TagErrors(s: seq<Byte>, off: nat)
    ensures TagAt(s, off).1 >= 0 || TagAt(s, off).1 in {TRUNCATED, BAD_STRUCTURE}
  {
  }

  /** The search for the end of a node whose body ends before its end tag gives the error of the tail. */
  lemma OpenNodeFails(s: seq<Byte>, off: nat, items: Items, tail: Tail, depth: nat)
    requires Valid(items) && off % 4 == 0 && At(s, off, Encode(items)) && HasTail(s, off + |Encode(items)|, tail)
    ensures EndFrom(s, off, depth) == Ending(tail, Some(depth))
  {
    hide Encode, At, HasTail, Ending;
    EndItems(s, off, items, depth);
    TailEnds(s, off + |Encode(items)|, tail, Some(depth));
    EndingIsError(tail, Some(depth));
  }
}
