/** Instance versus static members: every Counter has its own
    InstanceCount, while StaticCount is one field shared by all of them. */
module StaticVsInstance {
  import Int32
  import Text

  /** The storage of the static field Counter.StaticCount, a 32-bit int
      that starts at 0 (C# arithmetic is unchecked, so ++ wraps). */
  class StaticCount {
    var value: int

    ghost predicate Valid()
      reads this
    {
      Int32.InRange(value)
    }

    constructor ()
      ensures Valid() && value == 0
    {
      value := 0;
    }
  }

  /** The shared count after `n` constructions starting from `start`. */
  function CountAfter(start: int, n: nat): int {
    if n == 0 then start else Int32.Wrap(CountAfter(start, n - 1) + 1)
  }

  /** n constructions add n to the shared count, modulo 2^32. */
  lemma {:induction false} CountAfterWraps(start: int, n: nat)
    requires Int32.InRange(start)
    ensures CountAfter(start, n) == Int32.Wrap(start + n)
  {
    if n > 0 {
      CountAfterWraps(start, n - 1);
      WrapSucc(start + n - 1);
    }
  }

  /** Wrapping before or after adding one gives the same 32-bit value. */
  lemma WrapSucc(x: int)
    ensures Int32.Wrap(Int32.Wrap(x) + 1) == Int32.Wrap(x + 1)
  {
    var w := Int32.Wrap(x);
    var k := (x - w) / Int32.Modulus;
    assert x == w + k * Int32.Modulus;
    WrapShift(w + 1, k);
  }

  /** Wrap ignores multiples of 2^32. */
  lemma WrapShift(y: int, k: int)
    ensures Int32.Wrap(y + k * Int32.Modulus) == Int32.Wrap(y)
  {
    var a := y - Int32.Min;
    assert (a + k * Int32.Modulus) % Int32.Modulus == a % Int32.Modulus;
  }

  /** From 0, the count after n constructions is n while n fits in an int. */
  lemma CountFromZero(n: nat)
    requires n <= Int32.Max
    ensures CountAfter(0, n) == n
  {
    CountAfterWraps(0, n);
  }

  class Counter {
    var instanceCount: int

    /** `new Counter()`: the instance field goes from 0 to 1 and the shared
        count goes up by one. */
    constructor (shared: StaticCount)
      requires shared.Valid()
      modifies shared
      ensures instanceCount == 1
      ensures shared.Valid()
      ensures shared.value == CountAfter(old(shared.value), 1)
    {
      instanceCount := 0;
      new;
      instanceCount := instanceCount + 1;
      shared.value := Int32.Wrap(shared.value + 1);
    }
  }

  /** The line the program writes after creating its n-th counter. */
  function ReportLine(n: nat, c: int, s: int): string {
    "Object " + Text.IntToString(n) + " - InstanceCount: " + Text.IntToString(c)
      + ", StaticCount: " + Text.IntToString(s)
  }

  /** The program's scenario: three counters over the shared count; each
      pair is (InstanceCount, StaticCount) right after a construction. The
      static field lives as long as the process, so a run continues from
      whatever count earlier runs left behind. */
  method StaticVsInstanceDemo(shared: StaticCount) returns (counts: seq<(int, int)>)
    requires shared.Valid()
    modifies shared
    ensures shared.Valid()
    ensures shared.value == CountAfter(old(shared.value), 3)
    ensures counts == [(1, CountAfter(old(shared.value), 1)),
                       (1, CountAfter(old(shared.value), 2)),
                       (1, CountAfter(old(shared.value), 3))]
  {
    var c1 := new Counter(shared);
    counts := [(c1.instanceCount, shared.value)];
    var c2 := new Counter(shared);
    counts := counts + [(c2.instanceCount, shared.value)];
    var c3 := new Counter(shared);
    counts := counts + [(c3.instanceCount, shared.value)];
  }

  /** Choosing the topic twice in one session: the first run reports static
      counts 1, 2, 3 and the second 4, 5, 6, while every instance count is 1. */
  method TwoRuns() returns (first: seq<(int, int)>, second: seq<(int, int)>)
    ensures first == [(1, 1), (1, 2), (1, 3)]
    ensures second == [(1, 4), (1, 5), (1, 6)]
  {
    var shared := new StaticCount();
    first := StaticVsInstanceDemo(shared);
    CountFromZero(1);
    CountFromZero(2);
    CountFromZero(3);
    second := StaticVsInstanceDemo(shared);
    assert CountAfter(3, 1) == 4 && CountAfter(3, 2) == 5 && CountAfter(3, 3) == 6 by {
      CountAfterWraps(3, 1);
      CountAfterWraps(3, 2);
      CountAfterWraps(3, 3);
    }
  }

  /** The first of the lines the scenario writes. */
  lemma DemoFirstLine()
    ensures ReportLine(1, 1, 1) == "Object 1 - InstanceCount: 1, StaticCount: 1"
  {
    assert Text.IntToString(1) == "1";
  }

  /** Earlier counters keep their own InstanceCount when new ones are made. */
  method ConstructMany(shared: StaticCount, n: nat) returns (made: seq<Counter>)
    requires shared.Valid()
    modifies shared
    ensures shared.Valid()
    ensures shared.value == CountAfter(old(shared.value), n)
    ensures |made| == n
    ensures forall i :: 0 <= i < n ==> fresh(made[i]) && made[i].instanceCount == 1
    ensures forall i, j :: 0 <= i < j < n ==> made[i] != made[j]
  {
    made := [];
    while |made| < n
      invariant |made| <= n
      invariant shared.Valid()
      invariant shared.value == CountAfter(old(shared.value), |made|)
      invariant forall i :: 0 <= i < |made| ==> fresh(made[i]) && made[i].instanceCount == 1
      invariant forall i, j :: 0 <= i < j < |made| ==> made[i] != made[j]
    {
      var c := new Counter(shared);
      made := made + [c];
    }
  }
}
