/**
 s_udiv: long division in place.  The dividend is normalised, the partial
 remainder is a window sliding down its digits, and quotient digits are listed
 most significant first.
 */
module Division {
  import opened Arithmetic
  import opened Digits
  import opened UnsignedKernel
  import opened Karatsuba
  import opened PowersOfTwo
  import opened MpInt
  import opened Shifts
  import opened DivisionMath
  import opened DivisionLedger
  import opened QuotientList

  /** s_dbmul: dc = da * d over n digits; the top digit is stored only if it is not zero. */
  method DBMul(da: array<Digit>, d: Digit, dc: array<Digit>, n: nat)
    requires n <= da.Length && n < dc.Length && da != dc && dc[n] == 0
    modifies dc
    ensures Val(dc[0..n + 1]) == Times(d as int, Val(da[0..n]))
    ensures forall k :: n < k < dc.Length ==> dc[k] == old(dc[k])
  {
    hide Val, Shl, Times, Lower, Upper;
    ghost var x, z := da[0..n], Zeros(n);
    RowStart(d, x, z);
    var w: nat, i := 0, 0;
    while i < n
      invariant 0 <= i <= n
      invariant RowDone(d, x, z, dc[0..0 + i], w)
      invariant forall k :: i <= k < dc.Length ==> dc[k] == old(dc[k])
    {
      assert da[i] == x[i];
      DigitProduct(d, da[i]);
      var word := Times(d as int, da[i] as int) + w;
      RowStep(d, x, z, dc[0..0 + i], w, word);
      Store(dc, 0, i, Lower(word));
      w := Upper(word);
      i := i + 1;
    }
    RowTotal(d, x, dc[0..n], w);
    if w != 0 {
      dc[n] := w as Digit;
    }
    assert dc[0..n + 1] == dc[0..n] + [w as Digit];
  }

  lemma RowTotal(d: Digit, x: seq<Digit>, out: seq<Digit>, w: nat)
    requires |out| == |x| && RowDone(d, x, Zeros(|x|), out, w)
    ensures Val(out + [w as Digit]) == Times(d as int, Val(x))
  {
    hide Val, Shl, Times;
    assert x[..|x|] == x && Zeros(|x|)[..|x|] == Zeros(|x|);
    ValZeros(Zeros(|x|));
    ValAppend(out, w as Digit);
  }

  /** The first guess at a quotient digit, from one or two leading digits of the window. */
  method GuessDigit(da: array<Digit>, rp: nat, ru: nat, btop: Digit, ghost b: seq<Digit>) returns (q: Digit)
    requires rp + ru <= da.Length && Partial(da[rp..rp + ru], b) && btop as int == Top(b)
    ensures GoodGuess(da[rp..rp + ru], b, q as int)
  {
    hide Val;
    ghost var s := da[rp..rp + ru];
    PartialLength(s, b);
    var pfx: nat := da[rp + ru - 1] as int;
    assert pfx == Top(s);
    if ru > 1 && (pfx < btop as int || da[rp + ru - 2] == 0) {
      pfx := pfx * BASE + da[rp + ru - 2] as int;
      assert pfx == Top2(s);
    }
    var guess := pfx / btop as int;
    if guess > BASE - 1 {
      guess := 1;
    }
    GuessCases(s, b, pfx, guess);
    q := guess as Digit;
  }

  /** What the guess is worth: exact, up to two too large, or stuck at one when the guard fires. */
  ghost predicate GoodGuess(s: seq<Digit>, b: seq<Digit>, q: int)
    requires Partial(s, b)
  {
    && 1 <= q
    && if GuardFires(s, b) then q == 1 else Val(s) / Val(b) <= q <= Val(s) / Val(b) + 2
  }

  /** The window is one digit longer than the divisor and shares its top digit. */
  ghost predicate GuardFires(s: seq<Digit>, b: seq<Digit>)
    requires |s| >= 1 && |b| >= 1
  {
    |s| == |b| + 1 && Top(s) == Top(b)
  }

  lemma GuessCases(s: seq<Digit>, b: seq<Digit>, pfx: nat, guess: int)
    requires Partial(s, b)
    requires pfx == if |s| > 1 && (Top(s) < Top(b) || s[|s| - 2] == 0) then Top2(s) else Top(s)
    requires guess == if pfx / Top(b) > BASE - 1 then 1 else pfx / Top(b)
    ensures 0 <= guess < BASE && GoodGuess(s, b, guess)
  {
    hide Val, Top2, Top;
    PartialLength(s, b);
    PartialQuotient(s, b);
    if |s| == |b| {
      SameLengthDigit(s, b);
      if pfx != Top(s) { ShiftedTop(s, b); }
    } else {
      LongerTop(s, b);
      if Top(s) < Top(b) {
        TwoDigitGuess(s, b, Val(s) / Val(b));
      } else if pfx == Top(s) {
        SelfQuotient(Top(b));
      } else {
        ShiftedTop(s, b);
      }
    }
  }

  lemma PartialQuotient(s: seq<Digit>, b: seq<Digit>)
    requires Partial(s, b)
    ensures Val(b) >= 1 && 1 <= Val(s) / Val(b) && 1 <= Top(b)
  {
    hide Val, Times;
    NormalDivisor(b);
    DivBounds(Val(s), Val(b));
    if Val(s) / Val(b) < 1 {
      TimesMono(Val(s) / Val(b) + 1, 1, Val(b));
      TimesUnit(Val(b));
    }
  }

  lemma SelfQuotient(v: nat)
    requires v >= 1
    ensures v / v == 1
  {
    TimesUnit(v);
    DivUnique(v, v, 1, 0);
  }

  /** With a zero second digit and a top digit as large as the divisor's, the two-digit quotient is no digit. */
  lemma ShiftedTop(s: seq<Digit>, b: seq<Digit>)
    requires |s| >= 2 && |b| >= 1 && 1 <= Top(b) <= Top(s)
    ensures Top2(s) / Top(b) > BASE - 1
  {
    hide Times;
    DivBounds(Top2(s), Top(b));
    if Top2(s) / Top(b) + 1 <= BASE {
      TimesMono(Top2(s) / Top(b) + 1, BASE, Top(b));
      TimesBase(Top(b), Top(b));
      TimesSwap(Top(b), Top2(s) / Top(b) + 1);
    }
  }

  /** The scratch number t holds nothing but zeros. */
  ghost predicate Clean(t: Mpz)
    reads t, t.digits
  {
    t.used <= t.digits.Length && !t.neg && forall k :: 0 <= k < t.digits.Length ==> t.digits[k] == 0
  }

  /** t is a number with only zeros above it in its buffer. */
  ghost predicate Tidy(t: Mpz)
    reads t, t.digits
  {
    t.Valid() && !t.neg && ClearAbove(t, t.digits.Length)
  }

  /** t = q * b. */
  method Trial(b: Mpz, q: Digit, t: Mpz)
    requires b.Valid() && Clean(t) && Separate(b, t) && b.used < t.digits.Length
    modifies t, t.digits
    ensures Tidy(t) && t.digits == old(t.digits) && t.Mag() == Times(q as int, b.Mag())
  {
    hide Val, Times;
    var ub := b.used;
    DBMul(b.digits, q, t.digits, ub);
    assert b.digits[0..ub] == b.digits[..ub];
    t.used := ub + 1;
    assert t.digits[..ub + 1] == t.digits[0..ub + 1];
    t.Clamp();
  }

  /** Take b off t until t is no larger than the window; fixes counts how often. */
  method Correct(da: array<Digit>, rp: nat, ru: nat, b: Mpz, t: Mpz, guess: Digit) returns (q: Digit, fixes: nat)
    requires rp + ru <= da.Length && b.Valid() && !b.neg && Tidy(t) && Separate(b, t) && da != t.digits
    requires Partial(da[rp..rp + ru], b.digits[..b.used])
    requires GoodGuess(da[rp..rp + ru], b.digits[..b.used], guess as int) && t.Mag() == Times(guess as int, b.Mag())
    modifies t, t.digits
    ensures Tidy(t) && t.digits == old(t.digits)
    ensures q >= 1 && fixes <= 2 && t.Mag() == Times(q as int, b.Mag()) <= Val(da[rp..rp + ru])
    ensures q as int == if GuardFires(da[rp..rp + ru], b.digits[..b.used]) then 1 else Val(da[rp..rp + ru]) / b.Mag()
  {
    hide Val, Times, Top;
    ghost var s, d := da[rp..rp + ru], b.Mag();
    PartialQuotient(s, b.digits[..b.used]);
    q, fixes := guess, 0;
    ghost var quot := if GuardFires(s, b.digits[..b.used]) then 1 else Val(s) / d;
    QuotientChoice(s, b.digits[..b.used], quot);
    while true
      invariant Tidy(t) && t.digits == old(t.digits)
      invariant quot <= q as int && guess as int == q as int + fixes
      invariant t.Mag() == Times(q as int, d)
      invariant da[rp..rp + ru] == s
      decreases q
    {
      assert t.digits[0..t.used] == t.digits[..t.used];
      var c := UCmp(t.digits, 0, t.used, da, rp, ru);
      if c <= 0 { break; }
      TooLarge(quot, q as int, d, Val(s));
      q, fixes := q - 1, fixes + 1;
      Sub(t, b, t);
    }
    JustRight(quot, q as int, d, Val(s));
  }

  /** What the digit has to be: at least quot, and quot times the divisor fits. */
  lemma QuotientChoice(s: seq<Digit>, b: seq<Digit>, quot: int)
    requires Partial(s, b) && quot == if GuardFires(s, b) then 1 else Val(s) / Val(b)
    ensures quot >= 1 && Times(quot, Val(b)) <= Val(s)
    ensures !GuardFires(s, b) ==> Val(s) < Times(quot + 1, Val(b))
  {
    hide Val, Times;
    PartialQuotient(s, b);
    TimesUnit(Val(b));
    DivBounds(Val(s), Val(b));
    TimesSwap(quot, Val(b));
    TimesSwap(quot + 1, Val(b));
  }

  lemma TooLarge(quot: int, q: int, d: nat, r: int)
    requires 1 <= quot <= q && Times(quot, d) <= r < Times(q, d)
    ensures quot <= q - 1 && Times(q - 1, d) == Times(q, d) - d && d <= Times(q, d)
  {
    TimesLeft(q, q - 1, 1, d);
    TimesUnit(d);
    MulMono(0, q - 1, d);
  }

  lemma JustRight(quot: int, q: int, d: nat, r: int)
    requires quot <= q && Times(q, d) <= r && 1 <= quot
    ensures r < Times(quot + 1, d) ==> q == quot
  {
    if quot + 1 <= q { MulMono(quot + 1, q, d); }
  }

  /** CLAMP on the window at o: drop its leading zeros. */
  method ClampWindow(da: array<Digit>, o: int, n: nat) returns (m: nat)
    requires -1 <= o && 1 <= n && o + n <= da.Length
    ensures 1 <= m <= n && (m > 1 ==> da[o + m - 1] != 0)
    ensures forall k :: o + m <= k < o + n ==> k >= 0 && da[k] == 0
  {
    m := n;
    while m > 1 && da[o + m - 1] == 0
      invariant 1 <= m <= n
      invariant forall k :: o + m <= k < o + n ==> k >= 0 && da[k] == 0
    {
      m := m - 1;
    }
  }

  /** Guess a quotient digit, multiply out and correct: t is what to subtract. */
  method FindDigit(da: array<Digit>, rp: nat, ru: nat, b: Mpz, t: Mpz) returns (q: Digit, fixes: nat)
    requires rp + ru <= da.Length && b.Valid() && !b.neg && Clean(t) && Separate(b, t)
    requires da != t.digits && b.used < t.digits.Length
    requires Partial(da[rp..rp + ru], b.digits[..b.used])
    modifies t, t.digits
    ensures Tidy(t) && t.digits == old(t.digits)
    ensures q >= 1 && fixes <= 2 && t.Mag() == Times(q as int, b.Mag()) <= Val(da[rp..rp + ru])
    ensures q as int == if GuardFires(da[rp..rp + ru], b.digits[..b.used]) then 1 else Val(da[rp..rp + ru]) / b.Mag()
  {
    hide Val, Times;
    ghost var s, d := da[rp..rp + ru], b.digits[..b.used];
    var btop := b.digits[b.used - 1];
    q := GuessDigit(da, rp, ru, btop, d);
    Trial(b, q, t);
    assert da[rp..rp + ru] == s && b.digits[..b.used] == d;
    q, fixes := Correct(da, rp, ru, b, t, q);
  }

  /** One quotient digit: guess, correct, subtract from the window, and clear the scratch number again. */
  method SubtractDigit(da: array<Digit>, rp: nat, ru: nat, b: Mpz, t: Mpz) returns (q: Digit, ru': nat, fixes: nat)
    requires rp + ru <= da.Length && b.Valid() && !b.neg && Clean(t) && Separate(b, t)
    requires da != t.digits && da != b.digits && b.used < t.digits.Length
    requires ru >= 1 && Partial(da[rp..rp + ru], b.digits[..b.used])
    modifies da, t, t.digits
    ensures Clean(t) && t.digits == old(t.digits) && 1 <= ru' <= ru && fixes <= 2 && q >= 1
    ensures Canonical(da[rp..rp + ru']) && forall k :: rp + ru' <= k < rp + ru ==> da[k] == 0
    ensures Val(da[rp..rp + ru]) == old(Val(da[rp..rp + ru])) - Times(q as int, b.Mag())
    ensures q as int == if GuardFires(old(da[rp..rp + ru]), b.digits[..b.used]) then 1
      else old(Val(da[rp..rp + ru])) / b.Mag()
    ensures forall k :: 0 <= k < da.Length && (k < rp || rp + ru <= k) ==> da[k] == old(da[k])
  {
    hide Val, Times, Partial, GuardFires;
    q, fixes := FindDigit(da, rp, ru, b, t);
    assert t.digits[0..t.used] == t.digits[..t.used];
    FitsWindow(t.digits[..t.used], da[rp..rp + ru]);
    USub(da, rp, t.digits, 0, da, rp, ru, t.used);
    ru' := ClampWindow(da, rp, ru);
    ZeroDigits(t.digits, 0, t.used);
  }

  lemma FitsWindow(t: seq<Digit>, s: seq<Digit>)
    requires Canonical(t) && |s| >= 1 && Val(t) <= Val(s)
    ensures |t| <= |s|
  {
    hide Val;
    if |t| > |s| { LongerIsLarger(t, s); }
  }

  /** The window of ru digits at pos is all there is of the dividend from pos on. */
  ghost predicate Sliding(da: array<Digit>, ua: nat, pos: nat, ru: nat)
    reads da
  {
    && 1 <= ru && pos + ru <= ua <= da.Length && (ru > 1 ==> da[pos + ru - 1] != 0)
    && forall k :: pos + ru <= k < ua ==> da[k] == 0
  }

  /** From here on the loop will complete the list to full. */
  ghost predicate Leads(task: Task, r: nat, pos: nat, l: seq<Digit>, skip: nat, full: seq<Digit>)
    requires task.Valid()
  {
    r < BASE * task.d && Listing(task, pos, r, l, skip) == full
  }

  /** The state of the division loop. */
  ghost predicate At(task: Task, da: array<Digit>, ua: nat, pos: nat, ru: nat, q: nat, l: seq<Digit>, skip: nat,
                     full: seq<Digit>)
    requires task.Valid()
    reads da
  {
    && Sliding(da, ua, pos, ru)
    && Balance(task, da[0..ua], pos, q)
    && Ledger(task, pos, Val(da[pos..ua]), q, l, skip)
    && Leads(task, Val(da[pos..ua]), pos, l, skip, full)
  }

  lemma WindowValue(a: seq<Digit>, ua: nat, pos: nat, ru: nat)
    requires pos + ru <= ua <= |a| && forall k :: pos + ru <= k < ua ==> a[k] == 0
    ensures Val(a[pos..ua]) == Val(a[pos..pos + ru]) && a[0..ua][pos..] == a[pos..ua]
  {
    hide Val;
    ZerosAbove(a, pos, ru, ua - pos);
    assert a[pos..pos + (ua - pos)] == a[pos..ua];
    SplitSlice(a, 0, ua, pos);
  }

  /** The divisor of the division is the one in b. */
  ghost predicate TaskOf(task: Task, b: Mpz)
    reads b, b.digits
  {
    && b.Valid() && !b.neg && NormalDigits(b.digits[..b.used]) && task.Valid()
    && task.d == b.Mag() && task.v == Top(b.digits[..b.used]) && task.ub == b.used
  }

  /** The window reaches the divisor: list a digit and take it off. */
  method ListDigit(da: array<Digit>, ua: nat, pos: nat, ru: nat, b: Mpz, t: Mpz, l: seq<Digit>, ghost skip: nat,
                   ghost task: Task, ghost q: nat, ghost full: seq<Digit>)
    returns (g: Digit, ru': nat)
    requires TaskOf(task, b) && At(task, da, ua, pos, ru, q, l, skip, full) && task.d <= Val(da[pos..pos + ru])
    requires Clean(t) && Separate(b, t) && da != t.digits && da != b.digits && b.used < t.digits.Length
    modifies da, t, t.digits
    ensures Clean(t) && t.digits == old(t.digits)
    ensures At(task, da, ua, pos, ru', q + g as int, l + [g], 0, full)
    ensures Val(da[pos..ua]) < old(Val(da[pos..ua]))
  {
    hide Val, Pow, Times, Ledger, Listing, DigitFor;
    ghost var a, d := da[..], b.digits[..b.used];
    ghost var s := da[pos..pos + ru];
    WindowValue(a, ua, pos, ru);
    assert Partial(s, d);
    PartialLength(s, d);
    g, ru' := RunDigit(da, ua, pos, ru, b, t, task);
    TimesPositive(g as int, task.d);
    WindowValue(da[..], ua, pos, ru);
    BalancePush(task, a[0..ua], da[0..ua], pos, q, g as int);
    LedgerPush(task, pos, Val(s), q, l, skip, g, Val(da[pos..ua]));
    ListingDigit(task, pos, Val(s), l, skip, g);
  }

  method RunDigit(da: array<Digit>, ua: nat, pos: nat, ru: nat, b: Mpz, t: Mpz, ghost task: Task)
    returns (g: Digit, ru': nat)
    requires TaskOf(task, b) && Sliding(da, ua, pos, ru) && Partial(da[pos..pos + ru], b.digits[..b.used])
    requires Clean(t) && Separate(b, t) && da != t.digits && da != b.digits && b.used < t.digits.Length
    modifies da, t, t.digits
    ensures Clean(t) && t.digits == old(t.digits) && Sliding(da, ua, pos, ru') && ru' <= ru && g >= 1
    ensures Val(da[pos..pos + ru]) == old(Val(da[pos..pos + ru])) - Times(g as int, task.d)
    ensures g as int == DigitFor(task, old(Val(da[pos..pos + ru])))
    ensures Val(da[pos..pos + ru]) < task.d <==> old(Val(da[pos..pos + ru])) < Times(task.v, Pow(task.ub))
    ensures forall k :: 0 <= k < pos ==> da[k] == old(da[k])
    ensures forall k :: pos + ru <= k < ua ==> da[k] == 0
  {
    hide Val, Pow, Times;
    ghost var s, d := da[pos..pos + ru], b.digits[..b.used];
    var fixes: nat;
    g, ru', fixes := SubtractDigit(da, pos, ru, b, t);
    DigitOutcome(s, d, g as int);
    assert ru' > 1 ==> da[pos + ru' - 1] == da[pos..pos + ru'][ru' - 1];
  }

  /** The digit leaves less than the divisor exactly when the guard did not fire. */
  lemma DigitOutcome(s: seq<Digit>, b: seq<Digit>, q: int)
    requires Partial(s, b) && q == if GuardFires(s, b) then 1 else Val(s) / Val(b)
    ensures Val(s) - Times(q, Val(b)) < Val(b) <==> Val(s) < Times(Top(b), Pow(|b|))
    ensures q == if Val(s) >= Times(Top(b), Pow(|b|)) then 1 else Val(s) / Val(b)
  {
    hide Val, Pow, Times, Top;
    PartialLength(s, b);
    QuotientChoice(s, b, q);
    if |s| == |b| {
      SameLengthDigit(s, b);
    } else {
      LongerTop(s, b);
      if GuardFires(s, b) { EqualTopDigit(s, b); }
    }
    TimesLeft(q + 1, q, 1, Val(b));
    TimesUnit(Val(b));
    TimesSwap(q, Val(b));
    if Val(s) - Times(q, Val(b)) < Val(b) { DivUnique(Val(s), Val(b), q, Val(s) - Times(q, Val(b))); }
  }

  /** Divide the ua digits of da by b; da keeps the remainder, the quotient digits are listed top first. */
  method LongDivide(da: array<Digit>, ua: nat, b: Mpz, t: Mpz, ghost task: Task) returns (l: seq<Digit>)
    requires TaskOf(task, b) && 1 <= ua <= da.Length && task.ua == ua && task.n == Val(da[0..ua])
    requires Clean(t) && Separate(b, t) && da != t.digits && da != b.digits && b.used < t.digits.Length
    modifies da, t, t.digits
    ensures Val(da[0..ua]) == task.n % task.d
    ensures task.n / task.d <= ListVal(l)
    ensures ListVal(l) == task.n / task.d <==> task.Quiet(0)
    ensures task.Quiet(0) ==> |l| <= ua
    ensures 0 <= task.PartialRemainder(ua - 1) < BASE * task.d
    ensures l == Listing(task, ua - 1, task.PartialRemainder(ua - 1), [], 0)
  {
    hide Val, Pow, Times, ListVal, Ledger, Balance, Leads;
    RemainderBelow(task, ua - 1);
    ghost var full := Listing(task, ua - 1, task.PartialRemainder(ua - 1), [], 0);
    l := [];
    var pos: int, ru, skip: nat := ua - 1, 1, 0;
    ghost var q: nat := 0;
    StartAt(task, da, ua, full);
    while pos >= 0
      invariant -1 <= pos < ua && Clean(t) && t.digits == old(t.digits)
      invariant TaskOf(task, b) && (pos >= 0 ==> At(task, da, ua, pos, ru, q, l, skip, full))
      invariant pos < 0 ==> Val(da[0..ua]) == task.n % task.d && Listed(task, l) && l == full
      decreases pos, if pos >= 0 then Val(da[pos..ua]) else 0
    {
      WindowValue(da[..], ua, pos, ru);
      assert da[pos..pos + ru] == da[..][pos..pos + ru] && b.digits[0..b.used] == b.digits[..b.used];
      var c := UCmp(b.digits, 0, b.used, da, pos, ru);
      if c > 0 {
        MoveDownFrom(task, da, ua, pos, ru, q, l, skip, full);
        pos, ru := pos - 1, ru + 1;
        skip := skip + 1;
        if skip > 1 {
          l := l + [0];
        }
        q := BASE * q;
        ru := ClampWindow(da, pos, ru);
      } else {
        var g;
        g, ru := ListDigit(da, ua, pos, ru, b, t, l, skip, task, q, full);
        l := l + [g];
        q := q + g as int;
        skip := 0;
      }
    }
  }

  /** What a finished list promises. */
  ghost predicate Listed(task: Task, l: seq<Digit>)
    requires task.Valid()
  {
    && task.n / task.d <= ListVal(l)
    && (ListVal(l) == task.n / task.d <==> task.Quiet(0))
    && (task.Quiet(0) ==> |l| <= task.ua)
  }

  lemma StartAt(task: Task, da: array<Digit>, ua: nat, full: seq<Digit>)
    requires task.Valid() && 1 <= ua <= da.Length && task.ua == ua && task.n == Val(da[0..ua])
    requires 0 <= task.PartialRemainder(ua - 1) < BASE * task.d
    requires full == Listing(task, ua - 1, task.PartialRemainder(ua - 1), [], 0)
    ensures At(task, da, ua, ua - 1, 1, 0, [], 0, full)
  {
    hide Val, Pow, Times, Listing;
    BalanceStart(task, da[0..ua]);
    assert da[0..ua][ua - 1..] == da[ua - 1..ua];
  }

  /** Moving the window down, or off the end, when it is below the divisor. */
  lemma MoveDownFrom(task: Task, da: array<Digit>, ua: nat, pos: nat, ru: nat, q: nat, l: seq<Digit>, skip: nat,
                     full: seq<Digit>)
    requires task.Valid() && At(task, da, ua, pos, ru, q, l, skip, full) && Val(da[pos..ua]) < task.d
    ensures pos >= 1 ==>
      && Balance(task, da[0..ua], pos - 1, BASE * q)
      && Ledger(task, pos - 1, Val(da[pos - 1..ua]), BASE * q, Skipped(l, skip), skip + 1)
      && Leads(task, Val(da[pos - 1..ua]), pos - 1, Skipped(l, skip), skip + 1, full)
    ensures pos == 0 ==> Val(da[0..ua]) == task.n % task.d && Listed(task, Skipped(l, skip)) && Skipped(l, skip) == full
  {
    hide Val, Pow, Times, ListVal, Listing;
    ListingDown(task, pos, Val(da[pos..ua]), l, skip);
    var a := da[0..ua];
    SplitSlice(da[..], 0, ua, pos);
    SkippedShown(l, skip);
    if pos >= 1 {
      SplitSlice(da[..], 0, ua, pos - 1);
      BalanceDown(task, a, pos, q);
      LedgerDown(task, pos, Val(a[pos..]), q, l, skip, Val(a[pos - 1..]));
    } else {
      BalanceEnd(task, a, q);
      Settled(task, 0, Val(a[0..]), q, l, skip);
    }
  }

  /** The shift count s_norm finds for the top digit of the divisor. */
  method FindShift(top: Digit) returns (k: nat)
    requires top >= 1
    ensures k == NormShift(top as int)
  {
    hide Times, Exp2;
    var d := top as int;
    k := 0;
    NormShiftTop(d);
    while 2 * d < BASE
      invariant 1 <= d < BASE && k + NormShift(d) == NormShift(top as int)
      decreases BASE - d
    {
      d := 2 * d;
      k := k + 1;
    }
  }

  /** A canonical number between half of and the whole of BASE^n has n digits and a normalised top digit. */
  lemma NormalisedDigits(s: seq<Digit>, h: int, n: nat)
    requires Canonical(s) && n >= 1 && BASE <= 2 * h && Times(h, Pow(n - 1)) <= Val(s) < Pow(n)
    ensures |s| == n && NormalDigits(s) && h <= Top(s)
  {
    hide Val, Pow, Times;
    ValBound(s);
    TimesMono(1, h, Pow(n - 1));
    TimesUnit(Pow(n - 1));
    if |s| > n {
      CanonicalBound(s);
      PowMono(n, |s| - 1);
    } else if |s| < n {
      PowMono(|s|, n - 1);
    }
    TopBounds(s);
    TimesCancel(h, Top(s) + 1, Pow(n - 1));
  }

  /** Shifting the divisor by its normalising shift keeps its length. */
  lemma ShiftedDivisor(b: seq<Digit>, s: seq<Digit>)
    requires |b| >= 1 && b[|b| - 1] != 0 && Canonical(s)
    requires Val(s) == Times(Val(b), Exp2(NormShift(Top(b))))
    ensures |s| == |b| && NormalDigits(s) && Top(s) == Val(s) / Pow(|b| - 1)
  {
    hide Val, Pow, Times, Exp2;
    var d, e, p := Top(b), Exp2(NormShift(Top(b))), Pow(|b| - 1);
    NormShiftTop(d);
    NormShiftRoom(d);
    TopBounds(b);
    TimesMono(Times(d, p), Val(b), e);
    TimesMono(Val(b), Times(d + 1, p), e);
    SwapInner(d, p, e);
    SwapInner(d + 1, p, e);
    TimesMono(Times(d + 1, e), BASE, p);
    TimesBase(p, p);
    PowNext(|b| - 1);
    NormalisedDigits(s, Times(d, e), |b|);
    TopBounds(s);
    TopIsQuotient(Val(s), Top(s), p);
  }

  lemma TopIsQuotient(x: nat, v: nat, p: nat)
    requires p >= 1 && Times(v, p) <= x < Times(v + 1, p)
    ensures x / p == v
  {
    TimesLeft(v + 1, v, 1, p);
    TimesUnit(p);
    TimesSwap(v, p);
    DivUnique(x, p, v, x - Times(p, v));
  }

  /** s_norm: shift both operands so that the divisor's top digit is at least half the base. */
  method Norm(a: Mpz, b: Mpz) returns (k: nat)
    requires a.Valid() && b.Valid() && Separate(a, b) && b.Mag() > 0
    modifies a, a.digits, b, b.digits
    ensures a.Valid() && b.Valid() && Separate(a, b) && a.neg == old(a.neg) && b.neg == old(b.neg)
    ensures old(b.digits[b.used - 1]) != 0 && k == NormShift(Top(old(b.digits[..b.used])))
    ensures a.Mag() == Times(old(a.Mag()), Exp2(k)) && b.Mag() == Times(old(b.Mag()), Exp2(k))
    ensures b.used == old(b.used) && NormalDigits(b.digits[..b.used])
    ensures Top(b.digits[..b.used]) == b.Mag() / Pow(b.used - 1)
    ensures (a.digits == old(a.digits) || fresh(a.digits)) && (b.digits == old(b.digits) || fresh(b.digits))
  {
    hide Val, Pow, Times, Exp2, NormShift;
    ghost var bd := b.digits[..b.used];
    TopDigit(b);
    k := FindShift(b.digits[b.used - 1]);
    ghost var x := a.Mag();
    if k != 0 {
      QMul(a, k);
      QMul(b, k);
    } else {
      NoShift(x);
      NoShift(b.Mag());
    }
    ShiftedDivisor(bd, b.digits[..b.used]);
  }

  lemma TopDigit(b: Mpz)
    requires b.Valid() && b.Mag() > 0
    ensures b.digits[b.used - 1] != 0
  {
    hide Val;
    ZeroIsOneDigit(b);
  }

  lemma NoShift(x: int)
    ensures Times(x, Exp2(0)) == x
  {}

  /** A new number from quotient digits listed top first: REV, then CLAMP. */
  method FromList(l: seq<Digit>) returns (q: Mpz)
    requires |l| >= 1
    ensures fresh(q) && fresh(q.digits) && q.Valid() && !q.neg && q.Mag() == ListVal(l)
  {
    hide Val, ListVal;
    q := new Mpz(|l|);
    forall k | 0 <= k < |l| { q.digits[k] := l[|l| - 1 - k]; }
    q.used := |l|;
    ReversedVal(l, q.digits[..|l|]);
    q.Clamp();
  }

  /** Normalising does not change the quotient and scales the remainder. */
  lemma ScaledDivision(a: nat, b: nat, e: nat)
    requires b >= 1 && e >= 1
    ensures Times(b, e) >= 1
    ensures Times(a, e) / Times(b, e) == a / b && Times(a, e) % Times(b, e) / e == a % b
  {
    hide Times;
    var q, r := a / b, a % b;
    TimesPositive(b, e);
    DivIs(a, b);
    TimesLeft(a, Times(b, q), r, e);
    SwapInner(b, q, e);
    TimesMono(r + 1, b, e);
    TimesLeft(r + 1, r, 1, e);
    TimesUnit(e);
    TimesSign(r, e);
    DivUnique(Times(a, e), Times(b, e), q, Times(r, e));
    TimesSwap(r, e);
    DivUnique(Times(r, e), e, r, 0);
  }

  /** Normalise and divide: the scaled remainder stays in a, the quotient digits come back as a list. */
  method DivideShifted(a: Mpz, b: Mpz) returns (k: nat, l: seq<Digit>)
    requires a.Valid() && b.Valid() && Separate(a, b) && b.Mag() > 0 && b.Mag() <= a.Mag() && !a.neg && !b.neg
    modifies a, a.digits, b, b.digits
    ensures a.Valid() && b.Valid() && !a.neg && !b.neg && Separate(a, b) && old(b.digits[b.used - 1]) != 0
    ensures (a.digits == old(a.digits) || fresh(a.digits)) && (b.digits == old(b.digits) || fresh(b.digits))
    ensures a.Mag() / Exp2(k) == old(a.Mag()) % old(b.Mag())
    ensures |l| >= 1 && old(a.Mag()) / old(b.Mag()) <= ListVal(l)
    ensures ListVal(l) == old(a.Mag()) / old(b.Mag()) <==> GuardQuiet(old(a.Mag()), old(b.digits[..b.used]))
    ensures l == ListedDigits(old(a.Mag()), old(b.digits[..b.used]))
  {
    hide Val, Pow, Times, Exp2, ListVal, NormShift, Listing, DigitCount;
    ghost var x, y, bd := a.Mag(), b.Mag(), b.digits[..b.used];
    k := Norm(a, b);
    TimesMono(y, x, Exp2(k));
    NormalDivisor(b.digits[..b.used]);
    ghost var task := TaskFor(x, bd);
    l := DivideNormal(a, b, task);
    ScaledDivision(x, y, Exp2(k));
  }

  /**
   s_udiv: for a >= b > 0 leaves a % b in b, whatever the guard does, and in a the
   number listed, which is a / b exactly when the guard stays quiet, and larger otherwise.
   */
  method UDiv(a: Mpz, b: Mpz)
    requires a.Valid() && b.Valid() && Separate(a, b) && b.Mag() > 0 && b.Mag() <= a.Mag()
    modifies a, a.digits, b, b.digits
    ensures a.Valid() && b.Valid() && !a.neg && !b.neg && old(b.digits[b.used - 1]) != 0 && Separate(a, b)
    ensures (a.digits == old(a.digits) || fresh(a.digits)) && (b.digits == old(b.digits) || fresh(b.digits))
    ensures b.Mag() == old(a.Mag()) % old(b.Mag())
    ensures old(a.Mag()) / old(b.Mag()) <= a.Mag()
    ensures a.Mag() == old(a.Mag()) / old(b.Mag()) <==> GuardQuiet(old(a.Mag()), old(b.digits[..b.used]))
    ensures a.Mag() == ListVal(ListedDigits(old(a.Mag()), old(b.digits[..b.used])))
  {
    hide Val, Pow, Times, Exp2, ListVal, NormShift, GuardQuiet, ListedDigits;
    a.neg := false;
    b.neg := false;
    var k, l := DivideShifted(a, b);
    Exp2Zero(a.Mag());
    var q := FromList(l);
    if k != 0 {
      QDiv(a, k);
    }
    Copy(a, b);
    Copy(q, a);
  }

  method DivideNormal(a: Mpz, b: Mpz, ghost task: Task) returns (l: seq<Digit>)
    requires a.Valid() && b.Valid() && Separate(a, b) && !b.neg && !a.neg
    requires b.Mag() <= a.Mag() && TaskOf(task, b) && task.n == a.Mag()
    modifies a, a.digits
    ensures a.Valid() && !a.neg && a.digits == old(a.digits) && a.Mag() == task.n % task.d
    ensures |l| >= 1 && task.n / task.d <= ListVal(l)
    ensures ListVal(l) == task.n / task.d <==> forall j: nat :: !task.Fires(j)
    ensures var sized := task.(ua := DigitCount(task.n)); var j := sized.ua - 1;
      sized.Valid() && 0 <= sized.PartialRemainder(j) < BASE * sized.d &&
      l == Listing(sized, j, sized.PartialRemainder(j), [], 0)
  {
    hide Val, Pow, Times, ListVal, Listing, DigitCount;
    CanonicalCount(a.digits[..a.used]);
    var ua := a.used;
    var t := new Mpz(ua + 1);
    ZeroDigits(t.digits, 0, t.digits.Length);
    ghost var sized := task.(ua := ua);
    assert a.digits[0..ua] == a.digits[..ua];
    FitsWindow(b.digits[..b.used], a.digits[..ua]);
    ValBound(a.digits[..ua]);
    QuietIsQuiet(task, sized);
    l := LongDivide(a.digits, ua, b, t, sized);
    assert a.digits[..ua] == a.digits[0..ua];
    PositiveQuotient(task.n, task.d);
    NonEmpty(l);
    a.Clamp();
  }

  lemma PositiveQuotient(n: nat, d: nat)
    requires 1 <= d <= n
    ensures 1 <= n / d
  {
    hide Times;
    DivBounds(n, d);
    TimesUnit(d);
    TimesSwap(d, n / d + 1);
    if n / d < 1 {
      TimesMono(n / d + 1, 1, d);
    }
  }

  lemma NonEmpty(l: seq<Digit>)
    requires ListVal(l) >= 1
    ensures |l| >= 1
  {}
}
