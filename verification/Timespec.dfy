/**
  utils.c: timespec arithmetic, with exact rationals in place of doubles.
*/
module Timespec {

  const BILLION: int := 1_000_000_000

  datatype Time = Time(sec: int, nsec: int)
  {
    predicate Normal() { 0 <= nsec < 1_000_000_000 }

    /** The time in nanoseconds. */
    function Total(): int { sec * 1_000_000_000 + nsec }
  }

  // ----- C arithmetic

  /** Integer division in C rounds toward zero. */
  function TruncDiv(a: int, b: int): int
    requires b > 0
  {
    if a >= 0 then a / b else -(-a / b)
  }

  /** So does conversion of a real number to an integer. */
  function Trunc(x: real): int
  {
    if x >= 0.0 then x.Floor else -(-x).Floor
  }

  lemma {:induction false} FloorDiv(a: int, b: int)
    requires b > 0
    ensures (a as real / b as real).Floor == a / b
  {
    var q, m := a / b, a % b;
    var x := a as real / b as real;
    assert x * b as real == q as real * b as real + m as real;
    ScaleOrder(x, q as real, b as real, m as real);
  }

  lemma {:induction false} ScaleOrder(x: real, q: real, b: real, m: real)
    requires 0.0 <= m < b && x * b == q * b + m
    ensures q <= x < q + 1.0
  {
    var u, w := q - x, x - q - 1.0;
    assert u * b == q * b - x * b && w * b == x * b - q * b - b;
    assert u * b <= 0.0 && w * b < 0.0;
    ScaleSign(u, b);
    ScaleSign(w, b);
    assert u <= 0.0 && w < 0.0;
  }

  lemma {:induction false} ScaleSign(u: real, b: real)
    requires b > 0.0
    ensures u > 0.0 ==> u * b > 0.0
    ensures u >= 0.0 ==> u * b >= 0.0
  {}

  // ----- addition and subtraction

  function Plus(a: Time, b: Time): Time
  {
    var t := Time(a.sec + b.sec, a.nsec + b.nsec);
    if t.nsec >= 1_000_000_000 then Time(t.sec + 1, t.nsec - 1_000_000_000) else t
  }

  function Minus(a: Time, b: Time): Time
  {
    var t := Time(a.sec - b.sec, a.nsec - b.nsec);
    if t.nsec < 0 then Time(t.sec - 1, t.nsec + 1_000_000_000) else t
  }

  lemma {:induction false} PlusExact(a: Time, b: Time)
    requires a.Normal() && b.Normal()
    ensures Plus(a, b).Normal() && Plus(a, b).Total() == a.Total() + b.Total()
  {}

  lemma {:induction false} MinusExact(a: Time, b: Time)
    requires a.Normal() && b.Normal()
    ensures Minus(a, b).Normal() && Minus(a, b).Total() == a.Total() - b.Total()
  {}

  /** On normalized times both keep the normal form and are exact, hence inverse to each other. */
  lemma {:induction false} PlusMinus(a: Time, b: Time)
    requires a.Normal() && b.Normal()
    ensures Plus(a, b).Normal() && Plus(a, b).Total() == a.Total() + b.Total()
    ensures Minus(a, b).Normal() && Minus(a, b).Total() == a.Total() - b.Total()
    ensures Minus(Plus(a, b), b) == a && Plus(Minus(a, b), b) == a
  {
    PlusExact(a, b);
    MinusExact(a, b);
    MinusExact(Plus(a, b), b);
    PlusExact(Minus(a, b), b);
    NormalUnique(Minus(Plus(a, b), b), a);
    NormalUnique(Plus(Minus(a, b), b), a);
  }

  lemma {:induction false} NormalUnique(a: Time, b: Time)
    requires a.Normal() && b.Normal()
    ensures a.Total() == b.Total() <==> a == b
  {}

  // ----- division

  function DividedBy(t: Time, num: int): Time
    requires num > 0
  {
    var belowZero := t.sec as real / num as real - TruncDiv(t.sec, num) as real;
    Time(TruncDiv(t.sec, num), Trunc(TruncDiv(t.nsec, num) as real + belowZero * 1_000_000_000.0))
  }

  /** The nanoseconds of a quotient in integers: the share of the remaining seconds, truncated separately. */
  lemma {:induction false} DividedNsec(t: Time, num: int)
    requires t.Normal() && num > 0 && t.sec >= 0
    ensures DividedBy(t, num).nsec == t.nsec / num + t.sec % num * 1_000_000_000 / num
  {
    var r := t.sec % num;
    PositiveNsec(t, num, (r * 1_000_000_000) as real / num as real);
    ShareAdded(t.nsec / num, r, num, DividedBy(t, num).nsec);
  }

  lemma {:induction false} ShareAdded(n: int, r: int, num: int, nsec: int)
    requires n >= 0 && 0 <= r < num && nsec == Trunc(n as real + (r * 1_000_000_000) as real / num as real)
    ensures nsec == n + r * 1_000_000_000 / num
  {
    FloorDiv(r * 1_000_000_000, num);
    ShareBelowBillion(r, num);
    TruncSum(n, (r * 1_000_000_000) as real / num as real);
  }

  lemma {:induction false} PositiveNsec(t: Time, num: int, share: real)
    requires num > 0 && t.sec >= 0 && t.nsec >= 0
    requires share == (t.sec % num * 1_000_000_000) as real / num as real
    ensures DividedBy(t, num).nsec == Trunc((t.nsec / num) as real + share)
  {
    SecondsLeft(t.sec, num);
  }

  lemma {:induction false} TruncSum(n: int, x: real)
    requires n >= 0 && x.Floor >= 0
    ensures Trunc(n as real + x) == n + x.Floor
  {}

  lemma {:induction false} SecondsLeft(sec: int, num: int)
    requires num > 0
    ensures (sec as real / num as real - (sec / num) as real) * 1_000_000_000.0
            == (sec % num * 1_000_000_000) as real / num as real
  {
    var q, r := sec / num, sec % num;
    assert sec as real == q as real * num as real + r as real;
    assert sec as real / num as real - q as real == r as real / num as real;
  }

  /**
    Dividing a non-negative time: the result is normalized and at most one nanosecond below the
    quotient rounded down.
  */
  lemma {:induction false} DividedByClose(t: Time, num: int)
    requires t.Normal() && num > 0 && t.sec >= 0
    ensures DividedBy(t, num).Normal()
    ensures t.Total() / num - 1 <= DividedBy(t, num).Total() <= t.Total() / num
  {
    DividedNsec(t, num);
    DividedInts(t.sec, t.nsec, num);
  }

  lemma {:induction false} DividedInts(sec: int, nsec: int, num: int)
    requires 0 <= sec && 0 <= nsec < 1_000_000_000 && num > 0
    ensures var n, total := nsec / num + sec % num * 1_000_000_000 / num, sec * 1_000_000_000 + nsec;
            && 0 <= n < 1_000_000_000
            && total / num - 1 <= sec / num * 1_000_000_000 + n <= total / num
  {
    var r := sec % num;
    var total := sec * 1_000_000_000 + nsec;
    QuotientParts(num, sec / num, r, nsec / num, nsec % num, r * 1_000_000_000 / num, r * 1_000_000_000 % num,
                  total / num, total % num);
  }

  /**
    The same with each quotient and remainder named: q and r of the seconds, a and ra of the nanoseconds, and
    so on.
  */
  lemma {:induction false} QuotientParts(num: int, q: int, r: int, a: int, ra: int, b: int, rb: int, c: int, rc: int)
    requires num > 0 && 0 <= r < num && 0 <= ra < num && 0 <= rb < num && 0 <= rc < num && 0 <= a && 0 <= b
    requires num * a + ra < 1_000_000_000 && r * 1_000_000_000 == num * b + rb
    requires num * c + rc == (num * q + r) * 1_000_000_000 + (num * a + ra)
    ensures a + b < 1_000_000_000 && c - 1 <= q * 1_000_000_000 + a + b <= c
  {
    var d := c - (q * 1_000_000_000 + a + b);
    Distribute(num, c, q, a, b);
    assert num * d == ra + rb - rc;
    IntOrder(num, d, -1);
    IntOrder(num, 2, d);
    Distribute(num, 1_000_000_000, 0, a, b);
    IntOrder(num, 0, 1_000_000_000 - (a + b));
  }

  lemma {:induction false} Distribute(num: int, c: int, q: int, a: int, b: int)
    ensures num * (c - (q * 1_000_000_000 + a + b)) == num * c - num * q * 1_000_000_000 - num * a - num * b
    ensures num * (c - (a + b)) == num * c - num * a - num * b
  {}

  lemma {:induction false} IntOrder(num: int, x: int, y: int)
    requires num > 0
    ensures x >= y ==> num * x >= num * y
    ensures x <= y ==> num * x <= num * y
  {
    if x >= y { IntSign(num, x - y); } else { IntSign(num, y - x); }
  }

  lemma {:induction false} IntSign(num: int, d: int)
    requires num > 0
    ensures d >= 0 ==> num * d >= 0
  {}

  /** For a negative time the share of the remaining seconds is taken off instead. */
  lemma {:induction false} NegativeDividedNsec(t: Time, num: int)
    requires t.Normal() && num > 0 && t.sec < 0
    ensures DividedBy(t, num).nsec == t.nsec / num - -t.sec % num * 1_000_000_000 / num
  {
    var r := -t.sec % num;
    NegativeNsec(t, num, r, (r * 1_000_000_000) as real / num as real);
    ShareTaken(t.nsec, r, num, DividedBy(t, num).nsec);
  }

  lemma {:induction false} ShareTaken(nsec: int, r: int, num: int, result: int)
    requires 0 <= nsec < 1_000_000_000 && 0 <= r && num > 0
    requires result == Trunc((nsec / num) as real - (r * 1_000_000_000) as real / num as real)
    ensures result == nsec / num - r * 1_000_000_000 / num
  {
    FloorDiv(r * 1_000_000_000, num);
    if r > 0 {
      ShareExceeds(nsec, r, num);
      FloorShift((r * 1_000_000_000) as real / num as real, nsec / num);
    }
  }

  /**
    The result is normalized for every non-negative time; for a negative one exactly when no seconds
    remain or their share, in whole nanoseconds, equals the quotient of the nanoseconds.
  */
  lemma {:induction false} DividedByNormal(t: Time, num: int)
    requires t.Normal() && num > 0
    ensures DividedBy(t, num).Normal() <==>
      t.sec >= 0 || -t.sec % num == 0 || -t.sec % num * 1_000_000_000 / num == t.nsec / num
  {
    if t.sec >= 0 {
      DividedByClose(t, num);
    } else {
      NegativeDividedNsec(t, num);
      NormalShare(t.nsec, -t.sec % num, num, DividedBy(t, num).nsec);
    }
  }

  lemma {:induction false} NormalShare(nsec: int, r: int, num: int, result: int)
    requires 0 <= nsec < 1_000_000_000 && 0 <= r && num > 0
    requires result == nsec / num - r * 1_000_000_000 / num
    ensures 0 <= result < 1_000_000_000 <==> r == 0 || r * 1_000_000_000 / num == nsec / num
  {
    QuotientBounds(nsec, num);
    if r > 0 { ShareAtLeast(nsec, r, num); }
  }

  /** Dividing a negative time: the result, normalized or not, is less than one nanosecond off the quotient. */
  lemma {:induction false} NegativeDividedClose(t: Time, num: int)
    requires t.Normal() && num > 0 && t.sec < 0
    ensures -num < num * DividedBy(t, num).Total() - t.Total() < num
  {
    NegativeDividedNsec(t, num);
    NegativeClose(t.sec, t.nsec, num, DividedBy(t, num).Total());
  }

  lemma {:induction false} NegativeClose(sec: int, nsec: int, num: int, total: int)
    requires num > 0 && sec < 0
    requires total == -(-sec / num) * 1_000_000_000 + (nsec / num - -sec % num * 1_000_000_000 / num)
    ensures -num < num * total - (sec * 1_000_000_000 + nsec) < num
  {
    var r := -sec % num;
    NegativeParts(num, sec, nsec, -sec / num, r, nsec / num, nsec % num, r * 1_000_000_000 / num,
                  r * 1_000_000_000 % num);
  }

  lemma {:induction false} NegativeParts(num: int, sec: int, nsec: int, q: int, r: int, a: int, ra: int, b: int,
                                         rb: int)
    requires 0 <= ra < num && 0 <= rb < num
    requires -sec == num * q + r && nsec == num * a + ra && r * 1_000_000_000 == num * b + rb
    ensures -num < num * (-q * 1_000_000_000 + (a - b)) - (sec * 1_000_000_000 + nsec) < num
  {
    Distribute(num, a, q, 0, b);
  }

  /** A remaining second weighs more than all nanoseconds. */
  lemma {:induction false} ShareAtLeast(nsec: int, r: int, num: int)
    requires 0 <= nsec < 1_000_000_000 && 0 < r && num > 0
    ensures r * 1_000_000_000 / num >= nsec / num
  {
    var b, n := r * 1_000_000_000 / num, nsec / num;
    assert num * n <= nsec < r * 1_000_000_000 == num * b + r * 1_000_000_000 % num;
    IntOrder(num, n, b + 1);
  }

  /**
    The summation never reaches a billion, for any time, negative ones included. It can be negative,
    but stays above a billion below zero.
  */
  lemma {:induction false} SummationBelowBillion(t: Time, num: int)
    requires t.Normal() && num > 0
    ensures -1_000_000_000 < DividedBy(t, num).nsec < 1_000_000_000
  {
    if t.sec >= 0 {
      DividedByClose(t, num);
    } else {
      NegativeDividedNsec(t, num);
      QuotientBounds(t.nsec, num);
      ShareBelowBillion(-t.sec % num, num);
    }
  }

  /** The share of the remaining seconds is less than a second. */
  lemma {:induction false} ShareBelowBillion(r: int, num: int)
    requires 0 <= r < num
    ensures 0 <= r * 1_000_000_000 / num < 1_000_000_000
  {
    var b := r * 1_000_000_000 / num;
    assert r * 1_000_000_000 == num * b + r * 1_000_000_000 % num;
    IntOrder(num, 1_000_000_000, b);
    IntOrder(num, b, -1);
  }

  lemma {:induction false} QuotientBounds(nsec: int, num: int)
    requires 0 <= nsec < 1_000_000_000 && num > 0
    ensures 0 <= nsec / num <= nsec
  {
    var q := nsec / num;
    if num > 1 { IntSign(num - 1, q); }
    assert nsec == num * q + nsec % num == q + (num - 1) * q + nsec % num;
  }

  lemma {:induction false} NegativeNsec(t: Time, num: int, r: int, share: real)
    requires num > 0 && t.sec < 0 && t.nsec >= 0 && r == -t.sec % num
    requires share == (r * 1_000_000_000) as real / num as real
    ensures DividedBy(t, num).nsec == Trunc((t.nsec / num) as real - share)
  {
    SecondsLeft(-t.sec, num);
    NegatedQuotient(t.sec, num);
  }

  lemma {:induction false} NegatedQuotient(sec: int, num: int)
    requires num > 0 && sec < 0
    ensures sec as real / num as real - TruncDiv(sec, num) as real
            == -((-sec) as real / num as real - (-sec / num) as real)
  {
    assert (-sec) as real == -(sec as real);
    assert (-(sec as real)) / num as real == -(sec as real / num as real);
  }

  lemma {:induction false} FloorShift(x: real, n: int)
    ensures (x - n as real).Floor == x.Floor - n
  {}

  lemma {:induction false} ShareExceeds(nsec: int, r: int, num: int)
    requires 0 <= nsec < 1_000_000_000 && 0 < r && num > 0
    ensures (nsec / num) as real < (r * 1_000_000_000) as real / num as real
  {
    var n := nsec / num;
    assert num * n <= nsec < r * 1_000_000_000;
    var x := (r * 1_000_000_000) as real / num as real;
    assert x * num as real == (r * 1_000_000_000) as real;
    ScaleSign(n as real - x, num as real);
  }

  /** The two cases differ: minus one second over two is not normalized. */
  lemma {:induction false} NegativeQuotientNotNormal()
    ensures DividedBy(Time(-1, 0), 2) == Time(0, -500_000_000)
  {}

  // ----- the functions of utils.c

  /** struct timespec, updated through a pointer. */
  class Timespec {
    var sec: int
    var nsec: int

    constructor (sec: int, nsec: int)
      ensures Value() == Time(sec, nsec)
    {
      this.sec, this.nsec := sec, nsec;
    }

    ghost function Value(): Time
      reads this
    {
      Time(sec, nsec)
    }

    /** timespec_add; the assertions of the code are the precondition. */
    method Add(t2: Timespec)
      requires Value().Normal() && t2.Value().Normal()
      modifies this
      ensures Value() == Plus(old(Value()), old(t2.Value())) && Value().Normal()
    {
      PlusExact(Value(), t2.Value());
      sec := sec + t2.sec;
      nsec := nsec + t2.nsec;
      if nsec >= BILLION {
        sec := sec + 1;
        nsec := nsec - BILLION;
      }
    }

    /** timespec_sub. */
    method Sub(t2: Timespec)
      requires Value().Normal() && t2.Value().Normal()
      modifies this
      ensures Value() == Minus(old(Value()), old(t2.Value())) && Value().Normal()
    {
      MinusExact(Value(), t2.Value());
      sec := sec - t2.sec;
      nsec := nsec - t2.nsec;
      if nsec < 0 {
        sec := sec - 1;
        nsec := nsec + BILLION;
      }
    }

    /** timespec_div. */
    method Div(num: int)
      requires Value().Normal() && num > 0
      modifies this
      ensures Value() == DividedBy(old(Value()), num) && nsec < BILLION
      ensures old(sec) < 0 ==> -num < num * Value().Total() - old(Value().Total()) < num
      ensures old(sec) >= 0 ==>
        Value().Normal() && old(Value().Total()) / num - 1 <= Value().Total() <= old(Value().Total()) / num
    {
      SummationBelowBillion(Value(), num);
      if sec >= 0 { DividedByClose(Value(), num); } else { NegativeDividedClose(Value(), num); }
      var belowZero := sec as real / num as real - TruncDiv(sec, num) as real;
      sec := TruncDiv(sec, num);
      nsec := TruncDiv(nsec, num);
      nsec := Trunc(nsec as real + belowZero * BILLION as real);
    }
  }
}
