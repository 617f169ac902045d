/** The lottery scheduler of proc.c: ticket amounts, the draw, and the generator behind it. */
module Lottery {

  // Tickets

  const DEFAULT_NICE := 120

  /** The tickets a nice value is worth; a value out of range counts as the default. */
  function Tickets(nice: int): (t: nat)
    ensures 1 <= t <= 6
  {
    if nice > 139 then 3
    else if nice == 139 then 1
    else if nice > 129 then 2
    else if nice > 119 then 3
    else if nice > 109 then 4
    else if nice > 100 then 5
    else if nice == 100 then 6
    else 3
  }

  /** What getTicketAmount leaves in the nice field. */
  function Mended(nice: int): int {
    if 100 <= nice <= 139 then nice else DEFAULT_NICE
  }

  datatype Slot = Slot(runnable: bool, nice: int)

  function TicketsOf(p: Slot): nat {
    if p.runnable then Tickets(p.nice) else 0
  }

  /** The runnable tickets in the first k slots. */
  function Before(procs: seq<Slot>, k: nat): nat
    requires k <= |procs|
  {
    if k == 0 then 0 else Before(procs, k - 1) + TicketsOf(procs[k - 1])
  }

  /** Draw d falls on one of slot i's tickets. */
  predicate Wins(procs: seq<Slot>, d: nat, i: nat) {
    i < |procs| && procs[i].runnable && Before(procs, i) <= d < Before(procs, i) + Tickets(procs[i].nice)
  }

  lemma {:induction false} BeforeGrows(procs: seq<Slot>, i: nat, j: nat)
    requires i <= j <= |procs|
    ensures Before(procs, i) <= Before(procs, j)
    decreases j
  {
    if i < j {
      BeforeGrows(procs, i, j - 1);
    }
  }

  /** No draw has two winners. */
  lemma WinnerIsUnique(procs: seq<Slot>, d: nat, i: nat, j: nat)
    requires Wins(procs, d, i) && Wins(procs, d, j)
    ensures i == j
  {
    if i < j {
      BeforeGrows(procs, i + 1, j);
    } else if j < i {
      BeforeGrows(procs, j + 1, i);
    }
  }

  /** The draws below n that slot i wins. */
  ghost function WinningDraws(procs: seq<Slot>, n: nat, i: nat): set<nat> {
    set d: nat | d < n && Wins(procs, d, i)
  }

  lemma {:induction false} IntervalSize(a: nat, n: nat, s: set<nat>)
    requires forall d: nat :: d in s <==> a <= d < a + n
    ensures |s| == n
  {
    if n == 0 {
      assert s == {};
    } else {
      IntervalSize(a, n - 1, s - {a + n - 1});
    }
  }

  /** Over the draws below the runnable total, a runnable slot wins as often as it has tickets, and no other ever wins. */
  lemma FairShare(procs: seq<Slot>, i: nat)
    requires i < |procs|
    ensures |WinningDraws(procs, Before(procs, |procs|), i)| == TicketsOf(procs[i])
  {
    BeforeGrows(procs, i + 1, |procs|);
    IntervalSize(Before(procs, i), TicketsOf(procs[i]), WinningDraws(procs, Before(procs, |procs|), i));
  }

  /** A draw has a winner exactly when it is below the runnable total. */
  lemma SomebodyWins(procs: seq<Slot>, d: nat)
    ensures d < Before(procs, |procs|) <==> exists i: nat :: Wins(procs, d, i)
  {
    if d < Before(procs, |procs|) {
      var i := FindWinner(procs, d, |procs|);
    }
    forall i: nat | Wins(procs, d, i)
      ensures d < Before(procs, |procs|)
    {
      BeforeGrows(procs, i + 1, |procs|);
    }
  }

  lemma {:induction false} FindWinner(procs: seq<Slot>, d: nat, k: nat) returns (i: nat)
    requires k <= |procs| && d < Before(procs, k)
    ensures Wins(procs, d, i)
  {
    if d < Before(procs, k - 1) {
      i := FindWinner(procs, d, k - 1);
    } else {
      i := k - 1;
    }
  }

  /** Mending a nice value does not change what it is worth. */
  lemma MendedIsWorthTheSame(nice: int)
    ensures Tickets(Mended(nice)) == Tickets(nice) && Mended(Mended(nice)) == Mended(nice)
  {
  }

  // The modulus of the generator is a product of two primes

  const M: nat := 16873
  const P: nat := 47
  const Q: nat := 359

  function Times(k: int, d: int): int {
    k * d
  }

  ghost predicate Divides(d: int, x: int) {
    exists k: int :: Times(k, d) == x
  }

  ghost predicate Prime(p: nat) {
    2 <= p && forall d: nat :: 2 <= d < p ==> !Divides(d, p)
  }

  lemma DividesByRemainder(d: nat, x: int)
    requires 0 < d
    ensures Divides(d, x) <==> x % d == 0
  {
    if x % d == 0 {
      assert Times(x / d, d) == x;
    }
    if k: int :| Times(k, d) == x {
      MultipleHasNoRemainder(k, d);
    }
  }

  lemma MultipleHasNoRemainder(k: int, d: nat)
    requires 0 < d
    ensures (k * d) % d == 0
  {
    var x := k * d;
    var e := k - x / d;
    assert e * d == x % d;
    assert 1 <= e ==> d <= e * d;
    assert e <= -1 ==> e * d < 0;
  }

  lemma Descend(p: int, a: int, b: int, k: int, q: int)
    requires a * b == k * p
    ensures (p - q * a) * b == (b - q * k) * p
  {
    calc {
      (p - q * a) * b;
      p * b - q * a * b;
      p * b - q * (a * b);
      p * b - q * (k * p);
      (b - q * k) * p;
    }
  }

  /** If a prime divides a * b and not a, it divides b: by descent on a. */
  lemma {:induction false} Euclid(p: nat, a: nat, b: int)
    requires Prime(p) && 1 <= a < p && Divides(p, a * b)
    ensures Divides(p, b)
    decreases a
  {
    if a != 1 {
      var k: int :| Times(k, p) == a * b;
      assert !Divides(a, p);
      DividesByRemainder(a, p);
      Descend(p, a, b, k, p / a);
      assert Times(b - (p / a) * k, p) == (p % a) * b;
      Euclid(p, p % a, b);
    }
  }

  /** Trial division up to the square root. */
  lemma PrimeByTrial(p: nat, r: nat)
    requires 2 <= p < (r + 1) * (r + 1) && forall d: nat :: 2 <= d <= r ==> p % d != 0
    ensures Prime(p)
  {
    forall d: nat | 2 <= d < p
      ensures !Divides(d, p)
    {
      if k: int :| Times(k, d) == p {
        assert k * d == p;
        OneFactorIsSmall(k, d, r);
        MultipleHasNoRemainder(k, d);
        MultipleHasNoRemainder(d, k);
        assert false;
      }
    }
  }

  lemma MulGrows(a: nat, b: nat, c: nat, d: nat)
    requires a <= c && b <= d
    ensures a * b <= c * d
  {
    assert a * b <= c * b <= c * d;
  }

  lemma OneFactorIsSmall(k: int, d: nat, r: nat)
    requires 2 <= d < k * d < (r + 1) * (r + 1)
    ensures 2 <= k && (k <= r || d <= r)
  {
    assert r < k && r < d ==> (r + 1) * (r + 1) <= k * d by {
      if r < k && r < d {
        MulGrows(r + 1, r + 1, k, d);
      }
    }
    assert k <= 1 ==> k * d <= d;
  }

  lemma FactorsOfM()
    ensures M == P * Q && Prime(P) && Prime(Q)
  {
    PrimeByTrial(P, 6);
    PrimeByTrial(Q, 18);
  }

  ghost predicate Coprime(a: int, b: int) {
    forall d: nat :: 2 <= d && Divides(d, a) ==> !Divides(d, b)
  }

  /** Coprime to M is: divisible by neither of its primes. */
  lemma CoprimeToM(x: int)
    ensures Coprime(x, M) <==> !Divides(P, x) && !Divides(Q, x)
  {
    FactorsOfM();
    assert Times(Q, P) == M && Times(P, Q) == M;
    forall d: nat | 2 <= d && Divides(d, x) && Divides(d, M)
      ensures Divides(P, x) || Divides(Q, x)
    {
      CommonFactor(d, x);
    }
  }

  lemma CommonFactor(d: nat, x: int)
    requires 2 <= d && Divides(d, x) && Divides(d, M)
    ensures Divides(P, x) || Divides(Q, x)
  {
    FactorsOfM();
    var k: int :| Times(k, d) == M;
    var j: int :| Times(j, d) == x;
    DividesByRemainder(P, d);
    if Divides(P, d) {
      DividesTransitive(P, d, x);
    } else {
      assert Times(Q, P) == d * k;
      EuclidAny(P, d, k);
      var m: int :| Times(m, P) == k;
      assert m * d == Q by {
        assert m * P * d == P * Q;
      }
      assert Times(m, d) == Q;
      assert d < Q ==> !Divides(d, Q);
      assert d == Q;
    }
  }

  lemma DividesTransitive(a: int, b: int, c: int)
    requires Divides(a, b) && Divides(b, c)
    ensures Divides(a, c)
  {
    var i: int :| Times(i, a) == b;
    var j: int :| Times(j, b) == c;
    assert Times(j * i, a) == c;
  }

  lemma ReduceFactor(a: int, p: int, b: int, k: int, q: int)
    requires a * b == k * p
    ensures (a - q * p) * b == (k - q * b) * p
  {
    calc {
      (a - q * p) * b;
      a * b - q * p * b;
      k * p - (q * b) * p;
      (k - q * b) * p;
    }
  }

  /** Euclid's lemma for any integer that the prime does not divide. */
  lemma EuclidAny(p: nat, a: int, b: int)
    requires Prime(p) && !Divides(p, a) && Divides(p, a * b)
    ensures Divides(p, b)
  {
    DividesByRemainder(p, a);
    var k: int :| Times(k, p) == a * b;
    ReduceFactor(a, p, b, k, a / p);
    assert Times(k - (a / p) * b, p) == (a % p) * b;
    Euclid(p, a % p, b);
  }

  /** Squaring modulo M keeps a number coprime to M. */
  lemma SquareStaysCoprime(x: nat)
    requires Coprime(x, M)
    ensures Coprime(x * x % M, M)
  {
    FactorsOfM();
    CoprimeToM(x);
    CoprimeToM(x * x % M);
    PrimeSparesSquare(P, Q, x);
    PrimeSparesSquare(Q, P, x);
  }

  lemma PrimeSparesSquare(p: nat, q: nat, x: nat)
    requires Prime(p) && p * q == M && !Divides(p, x)
    ensures !Divides(p, x * x % M)
  {
    if k: int :| Times(k, p) == x * x % M {
      var m := x * x / M;
      assert x * x == m * M + x * x % M;
      assert x * x == (m * q + k) * p by {
        calc {
          m * M + k * p;
          m * (p * q) + k * p;
          (m * q + k) * p;
        }
      }
      assert Times(m * q + k, p) == x * x;
      EuclidAny(p, x, x);
      assert false;
    }
  }

  /** Nothing coprime to M is a multiple of M; in particular it is not 0. */
  lemma CoprimeIsNotZero(x: int)
    requires Coprime(x, M)
    ensures x != 0
  {
    CoprimeToM(x);
    assert Times(0, P) == 0;
  }

  /** The draw looks at the runnable slots up to the winner, and mends their nice values. */
  function AfterDraw(procs: seq<Slot>, random: nat, k: nat): Slot
    requires k < |procs|
  {
    if procs[k].runnable && Before(procs, k) <= random then procs[k].(nice := Mended(procs[k].nice)) else procs[k]
  }

  const NOBODY := -1
  const WORD := 0x1_0000_0000   // unsigned arithmetic is modulo this

  lemma SquareFits(x: nat)
    requires x < M
    ensures x * x < WORD && x * x % WORD == x * x
  {
    MulGrows(x, x, M, M);
  }

  class Scheduler {
    var proc: seq<Slot>
    var randomNumber: nat

    ghost predicate Valid()
      reads this
    {
      randomNumber < M && Coprime(randomNumber, M)
    }

    constructor (proc: seq<Slot>)
      ensures Valid() && this.proc == proc && randomNumber == 8
    {
      this.proc, randomNumber := proc, 8;
      CoprimeToM(8);
      DividesByRemainder(P, 8);
      DividesByRemainder(Q, 8);
    }

    /** prng: square, reduce, draw. The square fits 32 bits, so the wrap-around of the unsigned product never happens. */
    method Prng(upper: nat) returns (x: nat)
      requires Valid()
      modifies `randomNumber
      ensures Valid() && 0 < randomNumber
      ensures upper == 0 ==> x == 0 && randomNumber == old(randomNumber)
      ensures upper != 0 ==> x < upper && randomNumber == old(randomNumber) * old(randomNumber) % M && x == randomNumber % upper
    {
      x := 0;
      if upper != 0 {
        SquareStaysCoprime(randomNumber);
        SquareFits(randomNumber);
        randomNumber := randomNumber * randomNumber % WORD;
        randomNumber := randomNumber % M;
        x := randomNumber % upper;
      }
      CoprimeIsNotZero(randomNumber);
    }

    /** getTicketAmount on a slot: its tickets, with an out-of-range nice value put back to the default. */
    method GetTicketAmount(i: nat) returns (t: nat)
      requires i < |proc|
      modifies `proc
      ensures t == Tickets(old(proc)[i].nice) && proc == old(proc)[i := old(proc)[i].(nice := Mended(old(proc)[i].nice))]
    {
      var nice := proc[i].nice;
      t := 3;
      if nice > 139 {
        proc := proc[i := proc[i].(nice := DEFAULT_NICE)];
      } else if nice == 139 {
        t := 1;
      } else if nice > 129 {
        t := 2;
      } else if nice > 119 {
        t := 3;
      } else if nice > 109 {
        t := 4;
      } else if nice > 100 {
        t := 5;
      } else if nice == 100 {
        t := 6;
      } else {
        proc := proc[i := proc[i].(nice := DEFAULT_NICE)];
      }
    }

    /** The draw of scheduler_lottery: the winner of the draw, or nobody when the draw is past the runnable total. */
    method PickWinner(random: nat) returns (winner: int)
      modifies `proc
      ensures |proc| == |old(proc)|
      ensures forall k :: 0 <= k < |proc| ==> proc[k] == AfterDraw(old(proc), random, k)
      ensures winner == NOBODY <==> Before(old(proc), |old(proc)|) <= random
      ensures winner != NOBODY ==> 0 <= winner && Wins(old(proc), random, winner)
    {
      ghost var procs := proc;
      var runningTotal := 0;
      var i := 0;
      while i < |proc|
        invariant 0 <= i <= |proc| == |procs| && runningTotal == Before(procs, i) <= random
        invariant forall k :: 0 <= k < i ==> proc[k] == AfterDraw(procs, random, k)
        invariant forall k :: i <= k < |proc| ==> proc[k] == procs[k]
      {
        if proc[i].runnable {
          var t := GetTicketAmount(i);
          runningTotal := runningTotal + t;
          if runningTotal > random {
            forall k | i < k <= |procs|
              ensures random < Before(procs, k)
            {
              BeforeGrows(procs, i + 1, k);
            }
            return i;
          }
        }
        i := i + 1;
      }
      return NOBODY;
    }
  }
}
