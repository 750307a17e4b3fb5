/**
 The digits s_udiv lists, as a function of the operands: what comes out when the
 guard on a quotient digit fires, and how long the list then gets.
 */
module QuotientList {
  import opened Arithmetic
  import opened Digits
  import opened PowersOfTwo
  import opened MpInt
  import opened DivisionMath
  import opened DivisionLedger

  /** The digit listed for a window of value r: 1 when the guard fires, the quotient otherwise. */
  ghost function DigitFor(t: Task, r: nat): (g: nat)
    requires t.Valid()
  {
    DivNat(r, t.d);
    if r >= Times(t.v, Pow(t.ub)) then 1 else r / t.d
  }

  lemma DigitForBounds(t: Task, r: nat)
    requires t.Valid() && t.d <= r < BASE * t.d
    ensures 1 <= DigitFor(t, r) < BASE && t.d <= Times(DigitFor(t, r), t.d) <= r
  {
    hide Pow, Times;
    var q := r / t.d;
    DivBounds(r, t.d);
    TimesUnit(t.d);
    TimesSwap(t.d, q);
    TimesSwap(t.d, q + 1);
    TimesBase(t.d, t.d);
    TimesSwap(t.d, BASE);
    QuotientBelow(t.d, q, BASE);
    TimesCancel(1, q + 1, t.d);
    TimesMono(1, q, t.d);
  }

  lemma RemainderBelow(t: Task, j: nat)
    requires t.Valid()
    ensures 0 <= t.PartialRemainder(j) < BASE * t.d
  {
    hide Pow, Times;
    DivIs(t.n / Pow(j), BASE * t.d);
  }

  /** The list when the loop is at digit pos with window value r, list l and the skip counter. */
  ghost function Listing(t: Task, pos: nat, r: nat, l: seq<Digit>, skip: nat): (l': seq<Digit>)
    requires t.Valid() && r < BASE * t.d
    decreases pos, r
  {
    if r < t.d then
      if pos == 0 then Skipped(l, skip)
      else
        RemainderBelow(t, pos - 1);
        Listing(t, pos - 1, t.PartialRemainder(pos - 1), Skipped(l, skip), skip + 1)
    else
      DigitForBounds(t, r);
      Listing(t, pos, r - Times(DigitFor(t, r), t.d), l + [DigitFor(t, r) as Digit], 0)
  }

  /** The division s_udiv runs for dividend a and divisor digits b, with the dividend's length after normalising. */
  ghost function SizedTask(a: nat, b: seq<Digit>): (t: Task)
    requires |b| >= 1 && b[|b| - 1] != 0
  {
    var t := TaskFor(a, b);
    t.(ua := DigitCount(t.n))
  }

  /** All the quotient digits s_udiv lists, top first. */
  ghost function ListedDigits(a: nat, b: seq<Digit>): (l: seq<Digit>)
    requires |b| >= 1 && b[|b| - 1] != 0
  {
    TaskForValid(a, b);
    var t := SizedTask(a, b);
    RemainderBelow(t, t.ua - 1);
    Listing(t, t.ua - 1, t.PartialRemainder(t.ua - 1), [], 0)
  }

  /** The quotient mp_int_div gives: the right one while the guard is quiet, else whatever was listed. */
  ghost function CodeQuotient(a: nat, b: seq<Digit>): (q: nat)
    requires |b| >= 1 && b[|b| - 1] != 0
  {
    TopIsPositive(b);
    DivNat(a, Val(b));
    if GuardQuiet(a, b) then a / Val(b) else ListVal(ListedDigits(a, b))
  }

  /** Moving down a digit position. */
  lemma ListingDown(t: Task, pos: nat, r: nat, l: seq<Digit>, skip: nat)
    requires t.Valid() && r < t.d
    ensures pos == 0 ==> Listing(t, pos, r, l, skip) == Skipped(l, skip)
    ensures pos > 0 ==>
      && 0 <= t.PartialRemainder(pos - 1) < BASE * t.d
      && Listing(t, pos, r, l, skip) == Listing(t, pos - 1, t.PartialRemainder(pos - 1), Skipped(l, skip), skip + 1)
  {
    hide Pow, Times;
    if pos > 0 { RemainderBelow(t, pos - 1); }
  }

  /** Listing a digit. */
  lemma ListingDigit(t: Task, pos: nat, r: nat, l: seq<Digit>, skip: nat, g: Digit)
    requires t.Valid() && t.d <= r < BASE * t.d && g as int == DigitFor(t, r)
    ensures 0 <= r - Times(g as int, t.d) < BASE * t.d
    ensures Listing(t, pos, r, l, skip) == Listing(t, pos, r - Times(g as int, t.d), l + [g], 0)
  {
    hide Pow, Times, DigitFor;
    DigitForBounds(t, r);
  }

  /** How many digits, beyond one, the position j takes: the guard may fire up to twice in a row. */
  ghost function Extra(t: Task, j: nat): (n: nat)
    requires t.Valid()
  {
    var r, g := t.PartialRemainder(j), Times(t.v, Pow(t.ub));
    if r < g then 0 else if r < g + t.d then 1 else 2
  }

  ghost function Extras(t: Task, pos: nat): (n: nat)
    requires t.Valid()
  {
    if pos == 0 then 0 else Extras(t, pos - 1) + Extra(t, pos - 1)
  }

  /** How many digits are still listed at the current position, when its window has value r. */
  ghost function Here(t: Task, r: nat, skip: nat): (n: nat)
    requires t.Valid()
  {
    var g := Times(t.v, Pow(t.ub));
    if r < t.d then if skip > 0 then 1 else 0
    else if r < g then 1
    else if r < g + t.d then 2
    else 3
  }

  /** The place where the guard fires lies two divisors below the largest window. */
  lemma GuardPlace(t: Task)
    requires t.Valid()
    ensures var g := Times(t.v, Pow(t.ub)); 2 * t.d <= g && BASE * t.d <= g + 2 * t.d
  {
    hide Pow, Times;
    var p, g := Pow(t.ub - 1), Times(t.v, Pow(t.ub));
    PowNext(t.ub - 1);
    BaseShift(t.v, p);
    TimesMono(2, t.v, Pow(t.ub));
    TimesBase(Pow(t.ub), 1);
    TimesUnit(Pow(t.ub));
    TimesLeft(t.v + 1, t.v, 1, p);
    TimesUnit(p);
    TimesMono(BASE, 2 * t.v, p);
    TimesBase(p, t.v);
  }

  lemma HereDigit(t: Task, r: nat, skip: nat)
    requires t.Valid() && t.d <= r < BASE * t.d
    ensures Times(DigitFor(t, r), t.d) <= r
    ensures Here(t, r, skip) == 1 + Here(t, r - Times(DigitFor(t, r), t.d), 0)
  {
    hide Pow, Times;
    DigitForBounds(t, r);
    GuardPlace(t);
    DivBounds(r, t.d);
    TimesUnit(t.d);
    TimesSwap(t.d, r / t.d);
    TimesSum(t.d, r / t.d + 1, r / t.d, 1);
  }

  /** The length of the list, from any state of the loop. */
  lemma {:induction false} ListingLength(t: Task, pos: nat, r: nat, l: seq<Digit>, skip: nat)
    requires t.Valid() && r < BASE * t.d
    ensures |Listing(t, pos, r, l, skip)| == |l| + Here(t, r, skip) + pos + Extras(t, pos)
    decreases pos, r
  {
    hide Pow, Times, DigitFor;
    if r < t.d {
      ListingDown(t, pos, r, l, skip);
      if pos > 0 {
        var r' := t.PartialRemainder(pos - 1);
        ListingLength(t, pos - 1, r', Skipped(l, skip), skip + 1);
        GuardPlace(t);
      }
    } else {
      DigitForBounds(t, r);
      HereDigit(t, r, skip);
      var g := DigitFor(t, r) as Digit;
      ListingDigit(t, pos, r, l, skip, g);
      ListingLength(t, pos, r - Times(g as int, t.d), l + [g], 0);
    }
  }

  /**
   With a divisor of two digits or more, one digit is listed for every digit of the
   normalised dividend but the first, and one or two more wherever the guard fires.
   */
  lemma ListedLength(a: nat, b: seq<Digit>)
    requires |b| >= 2 && b[|b| - 1] != 0
    ensures var t := SizedTask(a, b);
      && t.Valid() && |ListedDigits(a, b)| == t.ua - 1 + Extras(t, t.ua - 1)
      && |ListedDigits(a, b)| <= 3 * (t.ua - 1)
  {
    hide Pow, Times, Val, Exp2, NormShift, DigitCount;
    TaskForValid(a, b);
    var t := SizedTask(a, b);
    RemainderBelow(t, t.ua - 1);
    TopWindow(t);
    ListingLength(t, t.ua - 1, t.PartialRemainder(t.ua - 1), [], 0);
    ExtrasBound(t, t.ua - 1);
  }

  /** The first window is a single digit. */
  lemma TopWindow(t: Task)
    requires t.Valid() && t.ub >= 2 && t.ua == DigitCount(t.n)
    ensures t.PartialRemainder(t.ua - 1) < t.d
  {
    hide Pow, Times, DigitCount;
    var j, p := t.ua - 1, Pow(t.ua - 1);
    CountBounds(t.n);
    PowNext(j);
    DivBounds(t.n, p);
    DivNat(t.n, p);
    TimesSwap(p, BASE);
    TimesBase(p, p);
    QuotientBelow(p, t.n / p, BASE);
    BaseBelow(t);
    TimesZero(BASE * t.d);
    DivUnique(t.n / p, BASE * t.d, 0, t.n / p);
  }

  lemma BaseBelow(t: Task)
    requires t.Valid() && t.ub >= 2
    ensures BASE <= t.d
  {
    hide Times;
    PowMono(1, t.ub - 1);
    TimesMono(1, t.v, Pow(t.ub - 1));
    TimesUnit(Pow(t.ub - 1));
    assert Pow(1) == BASE;
  }

  lemma {:induction false} ExtrasBound(t: Task, pos: nat)
    requires t.Valid()
    ensures Extras(t, pos) <= 2 * pos
  {
    if pos > 0 { ExtrasBound(t, pos - 1); }
  }

  lemma Powers()
    ensures Pow(0) == 1 && Pow(1) == BASE && Pow(2) == BASE * BASE && Pow(3) == BASE * BASE * BASE
    ensures Pow(4) == BASE * BASE * BASE * BASE
  {}

  lemma TwoDigits(lo: Digit, hi: Digit)
    ensures Val([lo, hi]) == lo as int + BASE * hi as int
  {
    assert [lo, hi][1..] == [hi];
    ValOne(hi);
  }

  /** A two-digit divisor that needs no normalising. */
  lemma PlainTask(a: nat, lo: Digit, hi: Digit)
    requires hi >= 0x8000_0000
    ensures TaskFor(a, [lo, hi]) == Task(a, lo as int + BASE * hi as int, hi as int, 2, 0)
    ensures SizedTask(a, [lo, hi]) == Task(a, lo as int + BASE * hi as int, hi as int, 2, DigitCount(a))
  {
    hide DigitCount, NormShift;
    var b, d := [lo, hi], lo as int + BASE * hi as int;
    TwoDigits(lo, hi);
    NoNormShift(hi);
    TimesUnit(a);
    TimesUnit(d);
    Powers();
    assert d / BASE == hi as int;
  }

  lemma NoNormShift(hi: Digit)
    requires hi >= 0x8000_0000
    ensures NormShift(hi as int) == 0 && Exp2(0) == 1
  {}

  /** The division s_brmu runs for the modulus 2^64 - 2^32 + 1 sets off the guard, at the last digit. */
  lemma NoisyModulus()
    ensures !GuardQuiet(Pow(4), [1, 0xFFFF_FFFF])
    ensures ListedDigits(Pow(4), [1, 0xFFFF_FFFF]) == [0, 1, 0, 1, 0xFFFF_FFFE]
  {
    hide DigitCount, NormShift;
    var b: seq<Digit> := [1, 0xFFFF_FFFF];
    var d := BASE * BASE - BASE + 1;
    var t := Task(Pow(4), d, 0xFFFF_FFFF, 2, 5);
    Powers();
    PlainTask(Pow(4), 1, 0xFFFF_FFFF);
    TaskForValid(Pow(4), b);
    CountIs(Pow(4), 5);
    assert t.PartialRemainder(0) == BASE * BASE * BASE - BASE * BASE;
    assert TaskFor(Pow(4), b).Fires(0);
    NoisySteps(t);
  }

  lemma NoisySteps(t: Task)
    requires t == Task(Pow(4), BASE * BASE - BASE + 1, 0xFFFF_FFFF, 2, 5) && t.Valid()
    ensures 0 <= t.PartialRemainder(4) < BASE * t.d
    ensures Listing(t, 4, t.PartialRemainder(4), [], 0) == [0, 1, 0, 1, 0xFFFF_FFFE]
  {
    hide Listing, Task.PartialRemainder, Task.Valid, Pow;
    NoisyWindows(t);
    NoisyFront(t);
    NoisyBack(t);
  }

  /** Down to the last digit: no digit, then 1, then none. */
  lemma NoisyFront(t: Task)
    requires t == Task(Pow(4), BASE * BASE - BASE + 1, 0xFFFF_FFFF, 2, 5) && t.Valid()
    ensures Listing(t, 4, 1, [], 0) == Listing(t, 0, BASE * BASE * BASE - BASE * BASE, [0, 1, 0], 2)
  {
    hide Listing, DigitFor, Task.PartialRemainder, Task.Valid, Pow;
    NoisyWindows(t);
    NoisyDigits(t);
    var l1, l2, l3: seq<Digit> := [0], [0, 1], [0, 1, 0];
    assert Skipped([], 0) == [] && Skipped([], 1) == l1 && l1 + [1] == l2 && Skipped(l2, 1) == l3;
    ListingDown(t, 4, 1, [], 0);
    ListingDown(t, 3, BASE, [], 1);
    ListingDigit(t, 2, BASE * BASE, l1, 2, 1);
    ListingDown(t, 2, BASE - 1, l2, 0);
    ListingDown(t, 1, BASE * BASE - BASE, l2, 1);
  }

  /** At the last digit: the 1 of the guard, and the quotient of what it left. */
  lemma NoisyBack(t: Task)
    requires t == Task(Pow(4), BASE * BASE - BASE + 1, 0xFFFF_FFFF, 2, 5) && t.Valid()
    ensures Listing(t, 0, BASE * BASE * BASE - BASE * BASE, [0, 1, 0], 2) == [0, 1, 0, 1, 0xFFFF_FFFE]
  {
    hide Listing, DigitFor, Task.PartialRemainder, Task.Valid, Pow;
    NoisyDigits(t);
    var l3, l4: seq<Digit> := [0, 1, 0], [0, 1, 0, 1];
    assert l3 + [1] == l4 && l4 + [0xFFFF_FFFE] == [0, 1, 0, 1, 0xFFFF_FFFE];
    ListingDigit(t, 0, BASE * BASE * BASE - BASE * BASE, l3, 2, 1);
    ListingDigit(t, 0, BASE * BASE * BASE - 2 * BASE * BASE + BASE - 1, l4, 0, 0xFFFF_FFFE);
    ListingDown(t, 0, BASE * BASE - 2 * BASE + 1, [0, 1, 0, 1, 0xFFFF_FFFE], 0);
  }

  lemma NoisyWindows(t: Task)
    requires t == Task(Pow(4), BASE * BASE - BASE + 1, 0xFFFF_FFFF, 2, 5) && t.Valid()
    ensures t.PartialRemainder(4) == 1 && t.PartialRemainder(3) == BASE && t.PartialRemainder(2) == BASE * BASE
    ensures t.PartialRemainder(1) == BASE * BASE - BASE
    ensures t.PartialRemainder(0) == BASE * BASE * BASE - BASE * BASE
  {
    Powers();
  }

  lemma NoisyDigits(t: Task)
    requires t == Task(Pow(4), BASE * BASE - BASE + 1, 0xFFFF_FFFF, 2, 5) && t.Valid()
    ensures DigitFor(t, BASE * BASE) == 1 && DigitFor(t, BASE * BASE * BASE - BASE * BASE) == 1
    ensures DigitFor(t, BASE * BASE * BASE - 2 * BASE * BASE + BASE - 1) == 0xFFFF_FFFE
  {
    Powers();
  }

  lemma {:induction false} ExtrasInclude(t: Task, pos: nat, j: nat)
    requires t.Valid() && j < pos
    ensures Extras(t, pos) >= Extra(t, j)
  {
    if j + 1 < pos { ExtrasInclude(t, pos - 1, j); }
  }

  /**
   A dividend whose quotient outgrows the number s_udiv sets aside for it, which has
   room for as many digits as the dividend, rounded up: two extra digits are too many.
   */
  lemma ListOverruns()
    ensures var a, b: seq<Digit> := Times(0x8000_0000_FFFF_FFFE, Pow(64)), [0xFFFF_FFFF, 0x8000_0000];
      && a >= 0 && SizedTask(a, b).ua == 66
      && |ListedDigits(a, b)| > Max(RoundPrec(66), DEFAULT_PRECISION)
  {
    hide Pow, Times, DigitCount, NormShift;
    var c, b: seq<Digit> := 0x8000_0000_FFFF_FFFE, [0xFFFF_FFFF, 0x8000_0000];
    var a := Times(c, Pow(64));
    TimesPositive(c, Pow(64));
    SpreadCount(c);
    PlainTask(a, 0xFFFF_FFFF, 0x8000_0000);
    ListedLength(a, b);
    ExtrasInclude(SizedTask(a, b), 65, 63);
    SpreadWindow(SizedTask(a, b));
  }

  lemma SpreadCount(c: nat)
    requires BASE <= c < BASE * BASE
    ensures Times(c, Pow(64)) >= 0 && DigitCount(Times(c, Pow(64))) == 66
  {
    hide Pow, Times, DigitCount;
    TimesPositive(c, Pow(64));
    PowNext(64);
    PowNext(65);
    TimesMono(BASE, c, Pow(64));
    TimesMono(c + 1, BASE * BASE, Pow(64));
    TimesLeft(c + 1, c, 1, Pow(64));
    TimesUnit(Pow(64));
    BasesOf(Pow(64));
    CountIs(Times(c, Pow(64)), 66);
  }

  lemma BasesOf(p: int)
    ensures Times(BASE, p) == BASE * p && Times(BASE * BASE, p) == BASE * (BASE * p)
  {}

  lemma SpreadWindow(t: Task)
    requires t.Valid() && t.d == 0x8000_0000_FFFF_FFFF && t.v == 0x8000_0000 && t.ub == 2
    requires t.n == Times(0x8000_0000_FFFF_FFFE, Pow(64))
    ensures Extra(t, 63) == 2
  {
    hide Pow, Times;
    var c, p := 0x8000_0000_FFFF_FFFE, Pow(63);
    PowNext(63);
    BaseShift(c, p);
    BaseShift(p, c);
    TimesSwap(c, p);
    DivUnique(t.n, p, BASE * c, 0);
    TimesZero(BASE * t.d);
    DivUnique(BASE * c, BASE * t.d, 0, BASE * c);
    GuardValue();
  }

  lemma GuardValue()
    ensures Times(0x8000_0000, Pow(2)) == 0x8000_0000 * BASE * BASE
  {
    Powers();
  }
}
