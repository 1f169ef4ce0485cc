/** The randomizer loop of both `encrypt` methods: draw r from
    `random.randint(0, n)` (both ends included) until gcd(r, n) = 1.  The
    random stream is a finite sequence of draws; when it runs out before an
    acceptable draw, the loop gives up where the source would keep drawing. */
module Randomizer {
  import opened Wrappers
  import opened ModArith

  /** Every draw lies in [0, n], as `random.randint(0, n)` promises. */
  predicate DrawsInRange(n: nat, draws: seq<nat>)
  {
    forall i :: 0 <= i < |draws| ==> draws[i] <= n
  }

  /** The first draw coprime to n, if any. */
  function FirstCoprime(n: nat, draws: seq<nat>): (r: Option<nat>)
    ensures r.Some? ==> r.value in draws && Gcd(r.value, n) == 1
    ensures r.None? ==> forall i :: 0 <= i < |draws| ==> Gcd(draws[i], n) != 1
    decreases |draws|
  {
    if draws == [] then None
    else if Gcd(draws[0], n) == 1 then Some(draws[0])
    else FirstCoprime(n, draws[1..])
  }

  /** The draw returned is the first coprime one: it sits at some index i
      and every earlier draw was rejected. */
  lemma {:induction false} FirstCoprimeIsFirst(n: nat, draws: seq<nat>)
    ensures FirstCoprime(n, draws).Some? ==>
      exists i :: 0 <= i < |draws| && draws[i] == FirstCoprime(n, draws).value
        && forall j :: 0 <= j < i ==> Gcd(draws[j], n) != 1
    decreases |draws|
  {
    if draws != [] {
      if Gcd(draws[0], n) == 1 {
        assert draws[0] == FirstCoprime(n, draws).value;
      } else {
        var rest := draws[1..];
        FirstCoprimeIsFirst(n, rest);
        if FirstCoprime(n, rest).Some? {
          var i :| 0 <= i < |rest| && rest[i] == FirstCoprime(n, rest).value
            && forall j :: 0 <= j < i ==> Gcd(rest[j], n) != 1;
          assert draws[i + 1] == FirstCoprime(n, draws).value;
          forall j | 0 <= j < i + 1
            ensures Gcd(draws[j], n) != 1
          {
            if j > 0 {
              assert draws[j] == rest[j - 1];
            }
          }
        }
      }
    }
  }

  /** An accepted draw is never 0 nor n, so it lies in [1, n - 1]. */
  lemma AcceptedDrawRange(n: nat, draws: seq<nat>)
    requires n >= 2 && DrawsInRange(n, draws)
    ensures FirstCoprime(n, draws).Some? ==> 1 <= FirstCoprime(n, draws).value <= n - 1
  {
    GcdWithZeroOrSelf(n);
  }

  /** The loop itself: take the first draw, then redraw while gcd(r, n) != 1. */
  method ChooseRandomizer(n: nat, draws: seq<nat>) returns (r: Option<nat>)
    requires DrawsInRange(n, draws)
    ensures r == FirstCoprime(n, draws)
    ensures r.Some? ==> Gcd(r.value, n) == 1
    ensures n >= 2 && r.Some? ==> 1 <= r.value <= n - 1
    ensures r.Some? ==> exists i :: 0 <= i < |draws| && draws[i] == r.value
                          && forall j :: 0 <= j < i ==> Gcd(draws[j], n) != 1
  {
    FirstCoprimeIsFirst(n, draws);
    if n >= 2 {
      AcceptedDrawRange(n, draws);
    }
    if |draws| == 0 {
      return None;
    }
    var candidate := draws[0];
    var next := 1;
    while Gcd(candidate, n) != 1
      invariant 1 <= next <= |draws|
      invariant candidate == draws[next - 1]
      invariant FirstCoprime(n, draws) == FirstCoprime(n, draws[next - 1..])
      decreases |draws| - next
    {
      if next == |draws| {
        return None;
      }
      assert draws[next - 1..][1..] == draws[next..];
      candidate := draws[next];
      next := next + 1;
    }
    r := Some(candidate);
  }
}
