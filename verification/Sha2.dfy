/** The SHA-2 instructions against FIPS 180-4, for both word sizes. */
module Sha2 {
  /** The operations of a word size. */
  datatype Ops<!T> = Ops(add: (T, T) -> T, sum0: T -> T, sum1: T -> T, sig0: T -> T, sig1: T -> T,
                         ch: (T, T, T) -> T, maj: (T, T, T) -> T) {
    function Add4(x: T, y: T, z: T, w: T): T {
      add(add(add(x, y), z), w)
    }
  }

  // ----- The two word sizes -----

  function Rotr32(x: bv32, n: bv32): bv32
    requires 0 < n < 32
  {
    (x >> n) | (x << (32 - n))
  }

  function Shr32(x: bv32, n: bv32): bv32
    requires n < 32
  {
    x >> n
  }

  function Add32(x: bv32, y: bv32): bv32 {
    x + y
  }

  function Sum0Of32(x: bv32): bv32 {
    Rotr32(x, 2) ^ Rotr32(x, 13) ^ Rotr32(x, 22)
  }

  function Sum1Of32(x: bv32): bv32 {
    Rotr32(x, 6) ^ Rotr32(x, 11) ^ Rotr32(x, 25)
  }

  function Sig0Of32(x: bv32): bv32 {
    Rotr32(x, 7) ^ Rotr32(x, 18) ^ Shr32(x, 3)
  }

  function Sig1Of32(x: bv32): bv32 {
    Rotr32(x, 17) ^ Rotr32(x, 19) ^ Shr32(x, 10)
  }

  function Ch32(x: bv32, y: bv32, z: bv32): bv32 {
    (x & y) ^ (!x & z)
  }

  function Maj32(x: bv32, y: bv32, z: bv32): bv32 {
    (x & y) ^ (x & z) ^ (y & z)
  }

  function Rotr64(x: bv64, n: bv64): bv64
    requires 0 < n < 64
  {
    (x >> n) | (x << (64 - n))
  }

  function Shr64(x: bv64, n: bv64): bv64
    requires n < 64
  {
    x >> n
  }

  function Add64(x: bv64, y: bv64): bv64 {
    x + y
  }

  function Sum0Of64(x: bv64): bv64 {
    Rotr64(x, 28) ^ Rotr64(x, 34) ^ Rotr64(x, 39)
  }

  function Sum1Of64(x: bv64): bv64 {
    Rotr64(x, 14) ^ Rotr64(x, 18) ^ Rotr64(x, 41)
  }

  function Sig0Of64(x: bv64): bv64 {
    Rotr64(x, 1) ^ Rotr64(x, 8) ^ Shr64(x, 7)
  }

  function Sig1Of64(x: bv64): bv64 {
    Rotr64(x, 19) ^ Rotr64(x, 61) ^ Shr64(x, 6)
  }

  function Ch64(x: bv64, y: bv64, z: bv64): bv64 {
    (x & y) ^ (!x & z)
  }

  function Maj64(x: bv64, y: bv64, z: bv64): bv64 {
    (x & y) ^ (x & z) ^ (y & z)
  }

  function Sha256(): Ops<bv32> {
    Ops(Add32, Sum0Of32, Sum1Of32, Sig0Of32, Sig1Of32, Ch32, Maj32)
  }

  function Sha512(): Ops<bv64> {
    Ops(Add64, Sum0Of64, Sum1Of64, Sig0Of64, Sig1Of64, Ch64, Maj64)
  }

  // ----- The standard -----

  datatype Hash<T> = Hash(a: T, b: T, c: T, d: T, e: T, f: T, g: T, h: T)

  /** One round (FIPS 180-4, section 6.2.2, step 3). */
  function Round<T>(ops: Ops<T>, s: Hash<T>, k: T, w: T): Hash<T> {
    var t1 := ops.Add4(s.h, ops.sum1(s.e), ops.ch(s.e, s.f, s.g), ops.add(k, w));
    var t2 := ops.add(ops.sum0(s.a), ops.maj(s.a, s.b, s.c));
    Hash(ops.add(t1, t2), s.a, s.b, s.c, ops.add(s.d, t1), s.e, s.f, s.g)
  }

  /** The rounds for the first n words. */
  function Rounds<T>(ops: Ops<T>, s: Hash<T>, k: seq<T>, w: seq<T>, n: nat): Hash<T>
    requires n <= |k| && n <= |w|
  {
    if n == 0 then s else Round(ops, Rounds(ops, s, k, w, n - 1), k[n - 1], w[n - 1])
  }

  /** The message schedule (FIPS 180-4, section 6.2.2, step 1). */
  function Scheduled<T>(ops: Ops<T>, m: seq<T>, t: nat): T
    requires |m| == 16
  {
    if t < 16 then m[t]
    else ops.Add4(ops.sig1(Scheduled(ops, m, t - 2)), Scheduled(ops, m, t - 7),
                  ops.sig0(Scheduled(ops, m, t - 15)), Scheduled(ops, m, t - 16))
  }

  // ----- The instructions -----

  /** The hash state that two element groups hold: {f, e, b, a} and {h, g, d, c}, lowest element first. */
  function HashOf<T>(abef: seq<T>, cdgh: seq<T>): Hash<T>
    requires |abef| == 4 && |cdgh| == 4
  {
    Hash(abef[3], abef[2], cdgh[3], cdgh[2], abef[1], abef[0], cdgh[1], cdgh[0])
  }

  /** A round whose constant has been added to its word. */
  function AddedRound<T>(ops: Ops<T>, s: Hash<T>, kw: T): Hash<T> {
    var t1 := ops.Add4(s.h, ops.sum1(s.e), ops.ch(s.e, s.f, s.g), kw);
    var t2 := ops.add(ops.sum0(s.a), ops.maj(s.a, s.b, s.c));
    Hash(ops.add(t1, t2), s.a, s.b, s.c, ops.add(s.d, t1), s.e, s.f, s.g)
  }

  /** An element group. */
  datatype Group<T> = Group(e0: T, e1: T, e2: T, e3: T) {
    function Elements(): (r: seq<T>)
      ensures |r| == 4
    {
      [e0, e1, e2, e3]
    }
  }

  function GroupOf<T>(s: seq<T>): (g: Group<T>)
    requires |s| == 4
    ensures g.Elements() == s
  {
    Group(s[0], s[1], s[2], s[3])
  }

  datatype Instruction = CompressLow | CompressHigh | Schedule

  /** What an instruction puts into one group of its destination. */
  function GroupResult<T>(ops: Ops<T>, i: Instruction, vd: Group<T>, vs2: Group<T>, vs1: Group<T>): Group<T> {
    match i
    case CompressLow => HashHalf(AddedRound(ops, AddedRound(ops, HashOf(vs2.Elements(), vd.Elements()), vs1.e0), vs1.e1))
    case CompressHigh => HashHalf(AddedRound(ops, AddedRound(ops, HashOf(vs2.Elements(), vd.Elements()), vs1.e2), vs1.e3))
    case Schedule => GroupOf(NextWords(ops, vd.Elements(), vs2.Elements(), vs1.Elements()))
  }

  function HashHalf<T>(s: Hash<T>): Group<T> {
    Group(s.f, s.e, s.b, s.a)
  }

  method TwoRounds<T>(ops: Ops<T>, vd: array<T>, vs2: array<T>, w0: T, w1: T)
    requires vd.Length == 4 && vs2.Length == 4 && vd != vs2
    modifies vd
    ensures HashOf(vd[..], vs2[..]) == AddedRound(ops, AddedRound(ops, HashOf(vs2[..], old(vd[..])), w0), w1)
  {
    var a, b, c, d := vs2[3], vs2[2], vd[3], vd[2];
    var e, f, g, h := vs2[1], vs2[0], vd[1], vd[0];
    var t1 := ops.Add4(h, ops.sum1(e), ops.ch(e, f, g), w0);
    var t2 := ops.add(ops.sum0(a), ops.maj(a, b, c));
    h := g;
    g := f;
    f := e;
    e := ops.add(d, t1);
    d := c;
    c := b;
    b := a;
    a := ops.add(t1, t2);
    t1 := ops.Add4(h, ops.sum1(e), ops.ch(e, f, g), w1);
    t2 := ops.add(ops.sum0(a), ops.maj(a, b, c));
    h := g;
    g := f;
    f := e;
    e := ops.add(d, t1);
    d := c;
    c := b;
    b := a;
    a := ops.add(t1, t2);
    vd[0] := f;
    vd[1] := e;
    vd[2] := b;
    vd[3] := a;
  }

  method Vsha2cl<T>(ops: Ops<T>, vd: array<T>, vs2: array<T>, vs1: seq<T>)
    requires vd.Length == 4 && vs2.Length == 4 && |vs1| == 4 && vd != vs2
    modifies vd
    ensures HashOf(vd[..], vs2[..]) == AddedRound(ops, AddedRound(ops, HashOf(vs2[..], old(vd[..])), vs1[0]), vs1[1])
    ensures GroupOf(vd[..]) == GroupResult(ops, CompressLow, GroupOf(old(vd[..])), GroupOf(vs2[..]), GroupOf(vs1))
  {
    TwoRounds(ops, vd, vs2, vs1[0], vs1[1]);
  }

  method Vsha2ch<T>(ops: Ops<T>, vd: array<T>, vs2: array<T>, vs1: seq<T>)
    requires vd.Length == 4 && vs2.Length == 4 && |vs1| == 4 && vd != vs2
    modifies vd
    ensures HashOf(vd[..], vs2[..]) == AddedRound(ops, AddedRound(ops, HashOf(vs2[..], old(vd[..])), vs1[2]), vs1[3])
    ensures GroupOf(vd[..]) == GroupResult(ops, CompressHigh, GroupOf(old(vd[..])), GroupOf(vs2[..]), GroupOf(vs1))
  {
    TwoRounds(ops, vd, vs2, vs1[2], vs1[3]);
  }

  method Vsha2ms<T>(ops: Ops<T>, vd: array<T>, vs2: seq<T>, vs1: seq<T>)
    requires vd.Length == 4 && |vs2| == 4 && |vs1| == 4
    modifies vd
    ensures vd[..] == NextWords(ops, old(vd[..]), vs2, vs1)
    ensures GroupOf(vd[..]) == GroupResult(ops, Schedule, GroupOf(old(vd[..])), GroupOf(vs2), GroupOf(vs1))
  {
    var w0, w1, w2, w3 := vd[0], vd[1], vd[2], vd[3];
    var w4, w9, w10, w11 := vs2[0], vs2[1], vs2[2], vs2[3];
    var w12, w13, w14, w15 := vs1[0], vs1[1], vs1[2], vs1[3];
    var w16 := ops.Add4(ops.sig1(w14), w9, ops.sig0(w1), w0);
    var w17 := ops.Add4(ops.sig1(w15), w10, ops.sig0(w2), w1);
    var w18 := ops.Add4(ops.sig1(w16), w11, ops.sig0(w3), w2);
    var w19 := ops.Add4(ops.sig1(w17), w12, ops.sig0(w4), w3);
    vd[0] := w16;
    vd[1] := w17;
    vd[2] := w18;
    vd[3] := w19;
  }

  function NextWords<T>(ops: Ops<T>, vd: seq<T>, vs2: seq<T>, vs1: seq<T>): (r: seq<T>)
    requires |vd| == 4 && |vs2| == 4 && |vs1| == 4
    ensures |r| == 4
  {
    var w16 := ops.Add4(ops.sig1(vs1[2]), vs2[1], ops.sig0(vd[1]), vd[0]);
    var w17 := ops.Add4(ops.sig1(vs1[3]), vs2[2], ops.sig0(vd[2]), vd[1]);
    [w16, w17,
     ops.Add4(ops.sig1(w16), vs2[3], ops.sig0(vd[3]), vd[2]),
     ops.Add4(ops.sig1(w17), vs1[0], ops.sig0(vs2[0]), vd[3])]
  }

  // ----- Chains of instructions -----

  function Words<T>(ops: Ops<T>, m: seq<T>, ts: seq<nat>): seq<T>
    requires |m| == 16
  {
    seq(|ts|, i requires 0 <= i < |ts| => Scheduled(ops, m, ts[i]))
  }

  lemma ScheduleStep<T>(ops: Ops<T>, m: seq<T>, t: nat)
    requires |m| == 16
    ensures Scheduled(ops, m, t + 16)
         == ops.Add4(ops.sig1(Scheduled(ops, m, t + 14)), Scheduled(ops, m, t + 9),
                     ops.sig0(Scheduled(ops, m, t + 1)), Scheduled(ops, m, t))
  {
  }

  /** The words of the schedule that VSHA2MS takes give the next four. */
  lemma NextWordsScheduled<T>(ops: Ops<T>, m: seq<T>, t: nat)
    requires |m| == 16
    ensures NextWords(ops, Words(ops, m, [t, t + 1, t + 2, t + 3]), Words(ops, m, [t + 4, t + 9, t + 10, t + 11]),
                      Words(ops, m, [t + 12, t + 13, t + 14, t + 15]))
         == Words(ops, m, [t + 16, t + 17, t + 18, t + 19])
  {
    hide Scheduled;
    ScheduleStep(ops, m, t);
    ScheduleStep(ops, m, t + 1);
    ScheduleStep(ops, m, t + 2);
    ScheduleStep(ops, m, t + 3);
  }

  method Schedule4<T>(ops: Ops<T>, words: seq<T>, vs2: seq<T>, vs1: seq<T>) returns (next: seq<T>)
    requires |words| == 4 && |vs2| == 4 && |vs1| == 4
    ensures next == NextWords(ops, words, vs2, vs1)
  {
    hide NextWords, GroupResult, GroupOf;
    var vd := new T[4](i requires 0 <= i < 4 => words[i]);
    assert vd[..] == words;
    Vsha2ms(ops, vd, vs2, vs1);
    next := vd[..];
  }

  method NextGroup<T>(ops: Ops<T>, m: seq<T>, w: seq<T>, t: nat) returns (next: seq<T>)
    requires |m| == 16 && |w| == t + 16
    requires forall i :: 0 <= i < |w| ==> w[i] == Scheduled(ops, m, i)
    ensures |next| == 4 && forall i :: 0 <= i < 4 ==> next[i] == Scheduled(ops, m, t + 16 + i)
  {
    hide NextWords, Scheduled, Words;
    var vs2, vs1 := [w[t + 4], w[t + 9], w[t + 10], w[t + 11]], w[t + 12..t + 16];
    NextWordsScheduled(ops, m, t);
    FourWords(ops, m, w, t, t + 1, t + 2, t + 3);
    FourWords(ops, m, w, t + 4, t + 9, t + 10, t + 11);
    FourWords(ops, m, w, t + 12, t + 13, t + 14, t + 15);
    assert w[t..t + 4] == [w[t], w[t + 1], w[t + 2], w[t + 3]];
    assert vs1 == [w[t + 12], w[t + 13], w[t + 14], w[t + 15]];
    next := Schedule4(ops, w[t..t + 4], vs2, vs1);
    WordsAt(ops, m, t + 16, t + 17, t + 18, t + 19);
  }

  lemma WordsAt<T>(ops: Ops<T>, m: seq<T>, a: nat, b: nat, c: nat, d: nat)
    requires |m| == 16
    ensures Words(ops, m, [a, b, c, d]) == [Scheduled(ops, m, a), Scheduled(ops, m, b), Scheduled(ops, m, c), Scheduled(ops, m, d)]
  {
    hide Scheduled;
  }

  lemma FourWords<T>(ops: Ops<T>, m: seq<T>, w: seq<T>, a: nat, b: nat, c: nat, d: nat)
    requires |m| == 16 && a < |w| && b < |w| && c < |w| && d < |w|
    requires forall i :: 0 <= i < |w| ==> w[i] == Scheduled(ops, m, i)
    ensures Words(ops, m, [a, b, c, d]) == [w[a], w[b], w[c], w[d]]
  {
    hide Scheduled, Words;
    WordsAt(ops, m, a, b, c, d);
  }

  lemma FirstWords<T>(ops: Ops<T>, m: seq<T>)
    requires |m| == 16
    ensures forall t: nat :: t < 16 ==> m[t] == Scheduled(ops, m, t)
  {
  }

  /** Iterating VSHA2MS: the message words grow by a group each time. */
  method MessageSchedule<T>(ops: Ops<T>, m: seq<T>, groups: nat) returns (w: seq<T>)
    requires |m| == 16
    ensures |w| == 16 + 4 * groups
    ensures forall t :: 0 <= t < |w| ==> w[t] == Scheduled(ops, m, t)
  {
    hide Scheduled, Ops.Add4;
    w := m;
    FirstWords(ops, m);
    for j := 0 to groups
      invariant |w| == 16 + 4 * j
      invariant forall t :: 0 <= t < |w| ==> w[t] == Scheduled(ops, m, t)
    {
      var next := NextGroup(ops, m, w, 4 * j);
      w := w + next;
    }
  }

  function Added<T>(ops: Ops<T>, k: seq<T>, w: seq<T>, i: nat): (r: seq<T>)
    requires i + 4 <= |k| && i + 4 <= |w|
    ensures |r| == 4
  {
    [ops.add(k[i], w[i]), ops.add(k[i + 1], w[i + 1]), ops.add(k[i + 2], w[i + 2]), ops.add(k[i + 3], w[i + 3])]
  }

  lemma FourRounds<T>(ops: Ops<T>, s: Hash<T>, k: seq<T>, w: seq<T>, n: nat)
    requires n + 4 <= |k| && n + 4 <= |w|
    ensures var kw := Added(ops, k, w, n);
      AddedRound(ops, AddedRound(ops, AddedRound(ops, AddedRound(ops, Rounds(ops, s, k, w, n), kw[0]), kw[1]), kw[2]), kw[3])
      == Rounds(ops, s, k, w, n + 4)
  {
    hide AddedRound, Round;
    RoundAdded(ops, s, k, w, n);
    RoundAdded(ops, s, k, w, n + 1);
    RoundAdded(ops, s, k, w, n + 2);
    RoundAdded(ops, s, k, w, n + 3);
  }

  lemma RoundAdded<T>(ops: Ops<T>, s: Hash<T>, k: seq<T>, w: seq<T>, n: nat)
    requires n < |k| && n < |w|
    ensures AddedRound(ops, Rounds(ops, s, k, w, n), ops.add(k[n], w[n])) == Rounds(ops, s, k, w, n + 1)
  {
  }

  method CompressGroup<T>(ops: Ops<T>, abef: array<T>, cdgh: array<T>, kw: seq<T>)
    requires abef.Length == 4 && cdgh.Length == 4 && |kw| == 4 && abef != cdgh
    modifies abef, cdgh
    ensures HashOf(abef[..], cdgh[..])
         == AddedRound(ops, AddedRound(ops, AddedRound(ops, AddedRound(ops, old(HashOf(abef[..], cdgh[..])), kw[0]), kw[1]), kw[2]), kw[3])
  {
    hide AddedRound, HashOf, GroupResult, GroupOf;
    Vsha2cl(ops, cdgh, abef, kw);
    Vsha2ch(ops, abef, cdgh, kw);
  }

  /**
   Alternating VSHA2CL and VSHA2CH, with the registers of the state exchanging their roles,
   runs the rounds of the standard, four for each group of words, for any number of groups.
   */
  method Compress<T>(ops: Ops<T>, abef: array<T>, cdgh: array<T>, k: seq<T>, w: seq<T>, groups: nat)
    requires abef.Length == 4 && cdgh.Length == 4 && abef != cdgh
    requires 4 * groups <= |k| && 4 * groups <= |w|
    modifies abef, cdgh
    ensures HashOf(abef[..], cdgh[..]) == Rounds(ops, old(HashOf(abef[..], cdgh[..])), k, w, 4 * groups)
  {
    hide AddedRound, Round, HashOf, Rounds, Added, GroupResult, GroupOf;
    ghost var start := HashOf(abef[..], cdgh[..]);
    NoRounds(ops, start, k, w);
    for i := 0 to groups
      invariant HashOf(abef[..], cdgh[..]) == Rounds(ops, start, k, w, 4 * i)
    {
      FourRounds(ops, start, k, w, 4 * i);
      var kw := Added(ops, k, w, 4 * i);
      CompressGroup(ops, abef, cdgh, kw);
    }
  }

  lemma NoRounds<T>(ops: Ops<T>, s: Hash<T>, k: seq<T>, w: seq<T>)
    ensures Rounds(ops, s, k, w, 0) == s
  {
  }

  // ----- The loop over element groups -----

  /** The destination groups after the operation is applied to those from one index to another. */
  function Processed<T>(fn: (T, T, T) -> T, vd: seq<T>, vs2: seq<T>, vs1: seq<T>, from: nat, to: nat): seq<T>
    requires |vd| == |vs2| == |vs1|
  {
    seq(|vd|, i requires 0 <= i < |vd| => if from <= i < to then fn(vd[i], vs2[i], vs1[i]) else vd[i])
  }

  /** The groups that the loop reaches: its views begin at the first group, whatever egStart is. */
  function Reached(egStart: nat, egLen: nat): nat {
    if egStart < egLen then egLen - egStart else 0
  }

  /** The loop of the instructions; the register file holds whole element groups. */
  method VectorCrypto<T>(fn: (T, T, T) -> T, v: array<T>, vd: nat, vs2: nat, vs1: nat, n: nat, egLen: nat, egStart: nat)
    requires vd + n <= v.Length && vs2 + n <= v.Length && vs1 + n <= v.Length && egLen <= n
    requires (vd + n <= vs2 || vs2 + n <= vd) && (vd + n <= vs1 || vs1 + n <= vd)
    modifies v
    ensures var was := old(v[..]);
      && v[..][vd..vd + n] == Processed(fn, was[vd..vd + n], was[vs2..vs2 + n], was[vs1..vs1 + n], 0, Reached(egStart, egLen))
      && v[..][..vd] == was[..vd] && v[..][vd + n..] == was[vd + n..]
  {
    var vdView, vs2View, vs1View := vd, vs2, vs1;
    ghost var was := v[..];
    var idx := egStart;
    while idx < egLen
      invariant egStart <= idx && (idx <= egStart || idx <= egLen)
      invariant vdView == vd + (idx - egStart) && vs2View == vs2 + (idx - egStart) && vs1View == vs1 + (idx - egStart)
      invariant forall i :: 0 <= i < v.Length && !(vd <= i < vdView) ==> v[i] == was[i]
      invariant forall i :: vd <= i < vdView ==> v[i] == fn(was[i], was[i - vd + vs2], was[i - vd + vs1])
    {
      v[vdView] := fn(v[vdView], v[vs2View], v[vs1View]);
      vdView, vs2View, vs1View := vdView + 1, vs2View + 1, vs1View + 1;
      idx := idx + 1;
    }
    assert forall i :: 0 <= i < v.Length ==> v[..][i] == v[i];
    LoopDone(fn, was, v[..], vd, vs2, vs1, n, Reached(egStart, egLen));
  }

  lemma LoopDone<T>(fn: (T, T, T) -> T, was: seq<T>, now: seq<T>, vd: nat, vs2: nat, vs1: nat, n: nat, m: nat)
    requires |was| == |now| && vd + n <= |was| && vs2 + n <= |was| && vs1 + n <= |was| && m <= n
    requires forall i :: 0 <= i < |was| && !(vd <= i < vd + m) ==> now[i] == was[i]
    requires forall i :: vd <= i < vd + m ==> now[i] == fn(was[i], was[i - vd + vs2], was[i - vd + vs1])
    ensures now[vd..vd + n] == Processed(fn, was[vd..vd + n], was[vs2..vs2 + n], was[vs1..vs1 + n], 0, m)
    ensures now[..vd] == was[..vd] && now[vd + n..] == was[vd + n..]
  {
    var p := Processed(fn, was[vd..vd + n], was[vs2..vs2 + n], was[vs1..vs1 + n], 0, m);
    forall k | 0 <= k < n
      ensures now[vd..vd + n][k] == p[k]
    {
      assert now[vd + k] == now[vd..vd + n][k];
    }
  }

  /** The groups from egStart to egLen, and no others, are to be processed; the loop takes the first ones. */
  predicate Differs(i: nat, egLen: nat, egStart: nat) {
    i < Reached(egStart, egLen) <==> !(egStart <= i < egLen)
  }

  /** The loop does what it is for exactly when the operation leaves all groups where the two differ. */
  lemma PurposeMet<T>(fn: (T, T, T) -> T, vd: seq<T>, vs2: seq<T>, vs1: seq<T>, egLen: nat, egStart: nat)
    requires |vd| == |vs2| == |vs1| && egLen <= |vd|
    ensures Processed(fn, vd, vs2, vs1, 0, Reached(egStart, egLen)) == Processed(fn, vd, vs2, vs1, egStart, egLen)
        <==> forall i :: 0 <= i < |vd| && Differs(i, egLen, egStart) ==> fn(vd[i], vs2[i], vs1[i]) == vd[i]
  {
    var was, meant := Processed(fn, vd, vs2, vs1, 0, Reached(egStart, egLen)), Processed(fn, vd, vs2, vs1, egStart, egLen);
    hide Reached;
    forall i | 0 <= i < |vd|
      ensures was[i] == meant[i] <==> (Differs(i, egLen, egStart) ==> fn(vd[i], vs2[i], vs1[i]) == vd[i])
    {
    }
    if forall i :: 0 <= i < |vd| && Differs(i, egLen, egStart) ==> fn(vd[i], vs2[i], vs1[i]) == vd[i] {
      assert was == meant;
    }
  }

  lemma FirstDiffers(egLen: nat, egStart: nat)
    ensures 0 < egStart < egLen ==> Differs(0, egLen, egStart)
    ensures egStart == 0 || egStart >= egLen ==> forall i: nat :: !Differs(i, egLen, egStart)
  {
  }

  /** The operations of the word size map zeros to zeros, and adding zero changes nothing. */
  ghost predicate Neutral<T(!new)>(ops: Ops<T>, zero: T) {
    && (forall x :: ops.add(x, zero) == x && ops.add(zero, x) == x)
    && ops.sum0(zero) == zero && ops.sum1(zero) == zero && ops.sig0(zero) == zero && ops.sig1(zero) == zero
    && ops.ch(zero, zero, zero) == zero && ops.maj(zero, zero, zero) == zero
  }

  lemma Zeros32()
    ensures Sum0Of32(0) == 0 && Sum1Of32(0) == 0
  {
  }

  lemma SmallZeros32()
    ensures Sig0Of32(0) == 0 && Sig1Of32(0) == 0
  {
  }

  lemma BooleanZeros32()
    ensures Ch32(0, 0, 0) == 0 && Maj32(0, 0, 0) == 0
  {
  }

  lemma AddZero32(x: bv32)
    ensures Add32(x, 0) == x && Add32(0, x) == x
  {
  }

  lemma Neutral256()
    ensures Neutral(Sha256(), 0)
  {
    hide Add32, Sum0Of32, Sum1Of32, Sig0Of32, Sig1Of32, Ch32, Maj32;
    Zeros32();
    SmallZeros32();
    BooleanZeros32();
    forall x: bv32
      ensures Sha256().add(x, 0) == x && Sha256().add(0, x) == x
    {
      AddZero32(x);
    }
  }

  lemma Zeros64()
    ensures Sum0Of64(0) == 0 && Sum1Of64(0) == 0
  {
  }

  lemma SmallZeros64()
    ensures Sig0Of64(0) == 0 && Sig1Of64(0) == 0
  {
  }

  lemma BooleanZeros64()
    ensures Ch64(0, 0, 0) == 0 && Maj64(0, 0, 0) == 0
  {
  }

  lemma AddZero64(x: bv64)
    ensures Add64(x, 0) == x && Add64(0, x) == x
  {
  }

  lemma Neutral512()
    ensures Neutral(Sha512(), 0)
  {
    hide Add64, Sum0Of64, Sum1Of64, Sig0Of64, Sig1Of64, Ch64, Maj64;
    Zeros64();
    SmallZeros64();
    BooleanZeros64();
    forall x: bv64
      ensures Sha512().add(x, 0) == x && Sha512().add(0, x) == x
    {
      AddZero64(x);
    }
  }

  lemma ScheduleChanges<T(!new)>(ops: Ops<T>, zero: T, one: T)
    requires Neutral(ops, zero)
    ensures GroupResult(ops, Schedule, Group(zero, zero, zero, zero), Group(zero, one, zero, zero), Group(zero, zero, zero, zero)).e0 == one
  {
  }

  lemma AddedToZeros<T(!new)>(ops: Ops<T>, zero: T, one: T)
    requires Neutral(ops, zero)
    ensures AddedRound(ops, Hash(zero, zero, zero, zero, zero, zero, zero, zero), one).e == one
  {
  }

  lemma CompressChanges<T(!new)>(ops: Ops<T>, zero: T, one: T)
    requires Neutral(ops, zero)
    ensures var none := Group(zero, zero, zero, zero);
      && GroupResult(ops, CompressLow, none, none, Group(one, zero, one, zero)).e0 == one
      && GroupResult(ops, CompressHigh, none, none, Group(one, zero, one, zero)).e0 == one
  {
    hide Neutral;
    AddedToZeros(ops, zero, one);
  }

  /** Sources on which each instruction changes a destination of zeros. */
  function Sources<T>(i: Instruction, zero: T, one: T): (Group<T>, Group<T>) {
    if i.Schedule? then (Group(zero, one, zero, zero), Group(zero, zero, zero, zero))
    else (Group(zero, zero, zero, zero), Group(one, zero, one, zero))
  }

  /** On those sources an instruction does what it is for only if it starts at the first group or has nothing to do. */
  lemma InstructionPurpose<T(!new)>(ops: Ops<T>, i: Instruction, zero: T, one: T, n: nat, egLen: nat, egStart: nat)
    requires Neutral(ops, zero) && one != zero && egLen <= n
    ensures var fn := (vd, vs2, vs1) => GroupResult(ops, i, vd, vs2, vs1); var none := Group(zero, zero, zero, zero);
      var vd, vs2, vs1 := seq(n, k => none), seq(n, k => Sources(i, zero, one).0), seq(n, k => Sources(i, zero, one).1);
      && (Processed(fn, vd, vs2, vs1, 0, Reached(egStart, egLen)) == Processed(fn, vd, vs2, vs1, egStart, egLen)
          <==> egStart == 0 || egStart >= egLen)
  {
    hide Neutral, GroupResult, Processed, Differs;
    var fn := (vd, vs2, vs1) => GroupResult(ops, i, vd, vs2, vs1);
    var none := Group(zero, zero, zero, zero);
    var vd, vs2, vs1 := seq(n, k => none), seq(n, k => Sources(i, zero, one).0), seq(n, k => Sources(i, zero, one).1);
    ScheduleChanges(ops, zero, one);
    CompressChanges(ops, zero, one);
    assert fn(none, Sources(i, zero, one).0, Sources(i, zero, one).1) != none;
    FirstDiffers(egLen, egStart);
    PurposeMet(fn, vd, vs2, vs1, egLen, egStart);
  }

  /** So for both word sizes each of the three instructions fails its purpose whenever it starts at a later group. */
  lemma PurposeMissed(i: Instruction, n: nat, egLen: nat, egStart: nat)
    requires 0 < egStart < egLen <= n
    ensures exists vd, vs2, vs1 :: |vd| == |vs2| == |vs1| == n && Misses(Sha256(), i, vd, vs2, vs1, egLen, egStart)
    ensures exists vd, vs2, vs1 :: |vd| == |vs2| == |vs1| == n && Misses(Sha512(), i, vd, vs2, vs1, egLen, egStart)
  {
    hide Processed, Sha256, Sha512;
    Neutral256();
    InstructionPurpose(Sha256(), i, 0, 1, n, egLen, egStart);
    var x := Sources<bv32>(i, 0, 1);
    var none: Group<bv32> := Group(0, 0, 0, 0);
    assert Misses(Sha256(), i, seq(n, k => none), seq(n, k => x.0), seq(n, k => x.1), egLen, egStart);
    Neutral512();
    InstructionPurpose(Sha512(), i, 0, 1, n, egLen, egStart);
    var y := Sources<bv64>(i, 0, 1);
    var nothing: Group<bv64> := Group(0, 0, 0, 0);
    assert Misses(Sha512(), i, seq(n, k => nothing), seq(n, k => y.0), seq(n, k => y.1), egLen, egStart);
  }

  predicate Misses<T(==)>(ops: Ops<T>, i: Instruction, vd: seq<Group<T>>, vs2: seq<Group<T>>, vs1: seq<Group<T>>, egLen: nat, egStart: nat)
    requires |vd| == |vs2| == |vs1|
  {
    var fn := (vd, vs2, vs1) => GroupResult(ops, i, vd, vs2, vs1);
    Processed(fn, vd, vs2, vs1, 0, Reached(egStart, egLen)) != Processed(fn, vd, vs2, vs1, egStart, egLen)
  }
}
