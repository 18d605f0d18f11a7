/** The round and the message schedule of FIPS 180-4 on numbers: every sum is one sum modulo 2^32 or 2^64. */
module Sha2Standard {
  import opened Powers
  import opened Sha2
  import opened Sha2Bits

  /** Adding words adds their numbers modulo m. */
  ghost predicate AddsModulo<T(!new)>(ops: Ops<T>, value: T -> nat, m: nat) {
    m > 0 && forall x, y :: value(ops.add(x, y)) == (value(x) + value(y)) % m
  }

  lemma ModOnce(x: nat, y: nat, m: nat)
    requires m > 0
    ensures (x % m + y) % m == (x + y) % m && (y + x % m) % m == (x + y) % m
  {
    var below: int := 0 - y;
    ModDifference(x, below, m);
  }

  lemma AddValue<T(!new)>(ops: Ops<T>, value: T -> nat, m: nat, x: T, y: T)
    requires AddsModulo(ops, value, m)
    ensures m > 0 && value(ops.add(x, y)) == (value(x) + value(y)) % m
  {
  }

  lemma Add4Value<T(!new)>(ops: Ops<T>, value: T -> nat, m: nat, x: T, y: T, z: T, w: T)
    requires AddsModulo(ops, value, m)
    ensures value(ops.Add4(x, y, z, w)) == (value(x) + value(y) + value(z) + value(w)) % m
  {
    var two := ops.add(x, y);
    var three := ops.add(two, z);
    AddValue(ops, value, m, x, y);
    AddValue(ops, value, m, two, z);
    AddValue(ops, value, m, three, w);
    FourTerms(value(x), value(y), value(z), value(w), value(two), value(three), m);
    hide AddsModulo;
  }

  lemma FourTerms(x: nat, y: nat, z: nat, w: nat, two: nat, three: nat, m: nat)
    requires m > 0 && two == (x + y) % m && three == (two + z) % m
    ensures (three + w) % m == (x + y + z + w) % m
  {
    OneMore(x + y, z, two, m);
    OneMore(x + y + z, w, three, m);
  }

  lemma OneMore(sum: nat, y: nat, part: nat, m: nat)
    requires m > 0 && part == sum % m
    ensures (part + y) % m == (sum + y) % m
  {
    ModOnce(sum, y, m);
  }

  lemma AddBoth(x: nat, y: nat, m: nat)
    requires m > 0
    ensures (x % m + y % m) % m == (x + y) % m
  {
    ModOnce(x, y % m, m);
    ModOnce(y, x, m);
  }

  /** A round moves six words and adds up the other two (section 6.2.2, step 3, and section 6.4.2, step 3). */
  lemma RoundIs<T(!new)>(ops: Ops<T>, value: T -> nat, m: nat, s: Hash<T>, k: T, w: T)
    requires AddsModulo(ops, value, m)
    ensures var r := Round(ops, s, k, w);
      var t1 := value(s.h) + value(ops.sum1(s.e)) + value(ops.ch(s.e, s.f, s.g)) + value(k) + value(w);
      var t2 := value(ops.sum0(s.a)) + value(ops.maj(s.a, s.b, s.c));
      && r.b == s.a && r.c == s.b && r.d == s.c && r.f == s.e && r.g == s.f && r.h == s.g
      && value(r.e) == (value(s.d) + t1) % m && value(r.a) == (t1 + t2) % m
  {
    var first := value(s.h) + value(ops.sum1(s.e)) + value(ops.ch(s.e, s.f, s.g));
    var kw := value(k) + value(w);
    var t2 := value(ops.sum0(s.a)) + value(ops.maj(s.a, s.b, s.c));
    var t1 := ops.Add4(s.h, ops.sum1(s.e), ops.ch(s.e, s.f, s.g), ops.add(k, w));
    Add4Value(ops, value, m, s.h, ops.sum1(s.e), ops.ch(s.e, s.f, s.g), ops.add(k, w));
    AddValue(ops, value, m, k, w);
    AddValue(ops, value, m, ops.sum0(s.a), ops.maj(s.a, s.b, s.c));
    AddValue(ops, value, m, s.d, t1);
    AddValue(ops, value, m, t1, ops.add(ops.sum0(s.a), ops.maj(s.a, s.b, s.c)));
    hide AddsModulo, Ops.Add4;
    ModOnce(kw, first, m);
    ModOnce(first + kw, value(s.d), m);
    AddBoth(first + kw, t2, m);
  }

  /** A later word of the schedule is the sum of four earlier ones (section 6.2.2, step 1, and section 6.4.2, step 1). */
  lemma ScheduledIs<T(!new)>(ops: Ops<T>, value: T -> nat, m: nat, words: seq<T>, t: nat)
    requires AddsModulo(ops, value, m) && |words| == 16
    ensures t < 16 ==> Scheduled(ops, words, t) == words[t]
    ensures t >= 16 ==>
      value(Scheduled(ops, words, t))
      == (value(ops.sig1(Scheduled(ops, words, t - 2))) + value(Scheduled(ops, words, t - 7))
          + value(ops.sig0(Scheduled(ops, words, t - 15))) + value(Scheduled(ops, words, t - 16))) % m
  {
    if t >= 16 {
      Add4Value(ops, value, m, ops.sig1(Scheduled(ops, words, t - 2)), Scheduled(ops, words, t - 7),
                ops.sig0(Scheduled(ops, words, t - 15)), Scheduled(ops, words, t - 16));
    }
  }

  lemma Adds256()
    ensures AddsModulo(Sha256(), Value32, 0x1_0000_0000)
  {
    hide Value32, Sha256;
    forall x, y
      ensures Value32(Sha256().add(x, y)) == (Value32(x) + Value32(y)) % 0x1_0000_0000
    {
      AddValue32(x, y);
    }
  }

  lemma Adds512()
    ensures AddsModulo(Sha512(), Value64, 0x1_0000_0000_0000_0000)
  {
    hide Value64, Sha512;
    forall x, y
      ensures Value64(Sha512().add(x, y)) == (Value64(x) + Value64(y)) % 0x1_0000_0000_0000_0000
    {
      AddValue64(x, y);
    }
  }
}
