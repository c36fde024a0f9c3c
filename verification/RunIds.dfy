/** Run ids: a persistent counter written in decimal after a time stamp. */
module RunIds {
  import opened Common

  predicate IsDigit(c: char) { '0' <= c <= '9' }

  function Digit(d: int): char
    requires 0 <= d < 10
  {
    ('0' as int + d) as char
  }

  /** The decimal notation of `n`, without leading zeros. */
  function Decimal(n: nat): (s: string)
    ensures s != [] && forall c | c in s :: IsDigit(c)
  {
    if n < 10 then [Digit(n)] else Decimal(n / 10) + [Digit(n % 10)]
  }

  function Parse(s: string): nat
    requires forall c | c in s :: IsDigit(c)
  {
    if s == [] then 0
    else
      assert IsDigit(s[|s| - 1]);
      Parse(s[..|s| - 1]) * 10 + (s[|s| - 1] as int - '0' as int)
  }

  lemma {:induction false} ParseDecimal(n: nat)
    ensures Parse(Decimal(n)) == n
    ensures Decimal(n)[0] == '0' ==> n == 0
  {
    if n >= 10 {
      ParseDecimal(n / 10);
      assert Decimal(n)[..|Decimal(n)| - 1] == Decimal(n / 10);
      assert Decimal(n)[0] == Decimal(n / 10)[0];
    }
  }

  /** The last digit of the notation is the number's, in ASCII, and what comes before it is that of a tenth. */
  lemma DecimalDigits(n: nat)
    ensures var d := Decimal(n);
            && d[|d| - 1] as int == 48 + n % 10
            && (n < 10 ==> |d| == 1)
            && (n >= 10 ==> d[..|d| - 1] == Decimal(n / 10))
  {
  }

  function Pow10(k: nat): nat { if k == 0 then 1 else 10 * Pow10(k - 1) }

  lemma {:induction false} DecimalLength(n: nat, k: nat)
    requires k >= 1 && n < Pow10(k)
    ensures |Decimal(n)| <= k
  {
    if n >= 10 {
      DecimalLength(n / 10, k - 1);
    }
  }

  lemma TwentyDigitsSuffice(n: Uint64)
    ensures |Decimal(n)| <= 20
  {
    assert Pow10(5) == 100_000;
    assert Pow10(10) == 100_000 * Pow10(5);
    assert Pow10(15) == 100_000 * Pow10(10);
    assert Pow10(20) == 100_000 * Pow10(15);
    DecimalLength(n, 20);
  }

  /** Fills a 20-character buffer backwards; the index never leaves the buffer. */
  method Itoa(n: Uint64) returns (s: string)
    ensures s == Decimal(n)
  {
    if n == 0 { return "0"; }
    TwentyDigitsSuffice(n);
    var b := new char[20];
    var i, rest := b.Length, n;
    while rest > 0
      invariant 0 <= i <= b.Length && 0 <= rest
      invariant Decimal(n) == (if rest == 0 then [] else Decimal(rest)) + b[i..]
    {
      i := i - 1;
      ghost var tail := b[i + 1..];
      b[i] := Digit(rest % 10);
      assert b[i..] == [Digit(rest % 10)] + tail;
      rest := rest / 10;
    }
    return b[i..];
  }

  function RunId(stamp: string, n: nat): string { "run-" + stamp + "-" + Decimal(n) }

  /** Two run ids are the same only if they carry the same number, whatever their time stamps. */
  lemma RunIdDetermines(stamp1: string, n1: nat, stamp2: string, n2: nat)
    requires RunId(stamp1, n1) == RunId(stamp2, n2)
    ensures n1 == n2 && stamp1 == stamp2
  {
    var id, d1, d2 := RunId(stamp1, n1), Decimal(n1), Decimal(n2);
    DashBeforeNumber(stamp1, n1);
    DashBeforeNumber(stamp2, n2);
    assert |d1| == |d2|;
    assert d1 == id[|id| - |d1|..] == d2;
    ParseDecimal(n1);
    ParseDecimal(n2);
    assert stamp1 == id[4..|id| - |d1| - 1] == stamp2;
  }

  lemma DashBeforeNumber(stamp: string, n: nat)
    ensures var id, len := RunId(stamp, n), |Decimal(n)|;
            && id[|id| - len - 1] == '-'
            && forall k | |id| - len <= k < |id| :: id[k] != '-'
  {
    var id, d := RunId(stamp, n), Decimal(n);
    forall k | |id| - |d| <= k < |id| ensures id[k] != '-' {
      assert id[k] == d[k - (|id| - |d|)];
      assert d[k - (|id| - |d|)] in d;
    }
  }

  // ----- The counter behind the ids, over any number of restarts -----

  /** The persistent counter after a series of increments, some of whose transactions commit. */
  function CounterAfter(start: Uint64, fates: seq<TxFate>): Uint64 {
    if fates == [] then start
    else
      var n := CounterAfter(start, fates[..|fates| - 1]);
      if fates[|fates| - 1].Commits? then Bump(n) else n
  }

  /** The number that increment `i` hands out, whether or not its transaction then commits; 0 if it never begins. */
  function NumberOf(start: Uint64, fates: seq<TxFate>, i: nat): Uint64
    requires i < |fates|
  {
    Incremented(CounterAfter(start, fates[..i]), fates[i])
  }

  lemma {:induction false} CounterGrows(start: Uint64, fates: seq<TxFate>, i: nat, j: nat)
    requires i <= j <= |fates| && start + |fates| < TWO_64
    ensures CounterAfter(start, fates[..j]) <= start + j
    ensures CounterAfter(start, fates[..i]) <= CounterAfter(start, fates[..j])
    ensures (CounterAfter(start, fates[..i]) < CounterAfter(start, fates[..j]))
            <==> (exists k :: i <= k < j && fates[k].Commits?)
    decreases j
  {
    if j > 0 {
      assert fates[..j][..j - 1] == fates[..j - 1];
      if i < j {
        CounterGrows(start, fates, i, j - 1);
      } else {
        CounterGrows(start, fates, j - 1, j - 1);
      }
    }
  }

  /** Two increments, both or neither of which began, the first not having been committed by the time of the second. */
  predicate Clash(fates: seq<TxFate>, i: nat, j: nat)
    requires i < j < |fates|
  {
    && (fates[i].NeverBegins? <==> fates[j].NeverBegins?)
    && (fates[i].NeverBegins? || forall k | i <= k < j :: !fates[k].Commits?)
  }

  /** Below 2^64, two increments hand out the same number exactly when neither began, or both began and none from
      the first up to the second was committed; numbers of committed increments strictly increase. */
  lemma NumbersDifferUnlessClash(start: Uint64, fates: seq<TxFate>, i: nat, j: nat)
    requires i < j < |fates| && start + |fates| < TWO_64
    ensures NumberOf(start, fates, i) == NumberOf(start, fates, j) <==> Clash(fates, i, j)
    ensures fates[i].Commits? && fates[j].Commits? ==> NumberOf(start, fates, i) < NumberOf(start, fates, j)
  {
    CounterGrows(start, fates, i, j);
  }

  /** Run ids drawn by two different firings, across any restarts, are the same exactly if their time stamps are
      and their increments clash; so they are unique, whatever the clock says, as long as counter writes commit. */
  lemma RunIdsAreUnique(start: Uint64, fates: seq<TxFate>, i: nat, j: nat, stamp1: string, stamp2: string)
    requires i < j < |fates| && start + |fates| < TWO_64
    ensures (RunId(stamp1, NumberOf(start, fates, i)) == RunId(stamp2, NumberOf(start, fates, j)))
            <==> stamp1 == stamp2 && Clash(fates, i, j)
  {
    NumbersDifferUnlessClash(start, fates, i, j);
    if RunId(stamp1, NumberOf(start, fates, i)) == RunId(stamp2, NumberOf(start, fates, j)) {
      RunIdDetermines(stamp1, NumberOf(start, fates, i), stamp2, NumberOf(start, fates, j));
    }
  }
}
