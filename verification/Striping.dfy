/**
  The addresses that the parallel coordinator gives to the pages of a run: a write hands out one page
  to each thread of a batch, a read steps from page to page.
 */
module Striping {
  import opened Arithmetic

  /** `w` sectors per LUN, `N` LUNs in the stripe, `ws` sectors per page, `T` threads. */
  datatype Geo = Geo(w: nat, N: nat, ws: nat, T: nat)

  ghost predicate Usable(g: Geo) {
    g.w > 0 && g.N > 0 && g.ws > 0 && g.T > 0
  }

  /** The cursor moved on by `step` sectors; past the last LUN it starts over one page further. */
  function Advance(g: Geo, a: nat, step: nat): nat
    requires Usable(g)
  {
    if a + step >= g.N * g.w then (a + step) % (g.N * g.w) + g.ws else a + step
  }

  /** The write cursor after `b` batches. */
  function Cursor(g: Geo, start: nat, b: nat): nat
    requires Usable(g)
  {
    if b == 0 then start else Advance(g, Cursor(g, start, b - 1), g.T * g.w)
  }

  /** Where page `n` of a run is written. */
  function Written(g: Geo, start: nat, n: nat): nat
    requires Usable(g)
  {
    Cursor(g, start, n / g.T) + (n % g.T) * g.w
  }

  /** Where page `n` of a run is read. */
  function ReadPoint(g: Geo, start: nat, n: nat): nat
    requires Usable(g)
  {
    if n == 0 then start else Advance(g, ReadPoint(g, start, n - 1), g.w)
  }

  // ---------- the stripe ----------

  /** The `m`-th page of the stripe: the LUNs take turns, every lap is one page further into them. */
  function Address(g: Geo, r: nat, m: nat): nat
    requires Usable(g)
  {
    (m % g.N) * g.w + Offset(g, r, m)
  }

  function Offset(g: Geo, r: nat, m: nat): nat
    requires Usable(g)
  {
    r + (m / g.N) * g.ws
  }

  /** The page still fits into its LUN. */
  ghost predicate Fits(g: Geo, r: nat, m: nat)
    requires Usable(g)
  {
    Offset(g, r, m) + g.ws <= g.w
  }

  // ---------- batches and laps ----------

  /** A lap of whole batches breaks no batch. */
  lemma BatchInLap(m: nat, n: nat, t: nat)
    requires t > 0 && n > 0 && n % t == 0 && m % t == 0
    ensures m % n + t <= n
  {
    var q := m / t - (n / t) * (m / n);
    assert m % n == t * q by {
      assert t * ((n / t) * (m / n)) == (t * (n / t)) * (m / n);
    }
    TimesIsMultiple(t, q);
    NextMultiple(m % n, n, t);
  }

  // ---------- both loops follow the stripe ----------

  lemma AdvanceInStripe(g: Geo, r: nat, m: nat, t: nat)
    requires Usable(g) && Fits(g, r, m) && m % g.N + t <= g.N
    ensures Advance(g, Address(g, r, m), t * g.w) == Address(g, r, m + t)
  {
    StepOn(m, t, g.N);
    Distribute(m % g.N, t, g.w);
    if m % g.N + t < g.N {
      AdvanceInside(g, Offset(g, r, m), m % g.N + t, Address(g, r, m), t * g.w);
    } else {
      Distribute(m / g.N, 1, g.ws);
      AdvanceAround(g, Offset(g, r, m), Address(g, r, m), t * g.w);
    }
  }

  lemma AdvanceInside(g: Geo, o: nat, lun: nat, a: nat, step: nat)
    requires Usable(g) && o < g.w && lun < g.N && a + step == lun * g.w + o
    ensures Advance(g, a, step) == lun * g.w + o
  {
    TimesIsMonotone(lun + 1, g.N, g.w);
    Distribute(lun, 1, g.w);
  }

  lemma AdvanceAround(g: Geo, o: nat, a: nat, step: nat)
    requires Usable(g) && o < g.w && a + step == g.N * g.w + o
    ensures Advance(g, a, step) == o + g.ws
  {
    TimesIsMonotone(1, g.N, g.w);
    Quotient(g.N * g.w + o, g.N * g.w, 1, o);
  }

  lemma EarlierFits(g: Geo, r: nat, m: nat, k: nat)
    requires Usable(g) && Fits(g, r, k) && m <= k
    ensures Fits(g, r, m)
  {
    if m / g.N > k / g.N {
      TimesIsMonotone(k / g.N + 1, m / g.N, g.N);
      assert (k / g.N + 1) * g.N == k / g.N * g.N + g.N;
    }
    TimesIsMonotone(m / g.N, k / g.N, g.ws);
  }

  /** A read that starts at page `first` of the stripe visits the pages of the stripe in order. */
  lemma {:induction false} ReadsFollowStripe(g: Geo, r: nat, first: nat, n: nat)
    requires Usable(g) && (n > 0 ==> Fits(g, r, first + n - 1))
    ensures ReadPoint(g, Address(g, r, first), n) == Address(g, r, first + n)
    decreases n
  {
    if n > 0 {
      if n > 1 {
        EarlierFits(g, r, first + n - 2, first + n - 1);
      }
      ReadsFollowStripe(g, r, first, n - 1);
      assert 1 * g.w == g.w;
      AdvanceInStripe(g, r, first + n - 1, 1);
    }
  }

  /** So does the write cursor, batch by batch, when the threads divide the LUNs. */
  lemma {:induction false} CursorFollowsStripe(g: Geo, r: nat, first: nat, b: nat)
    requires Usable(g) && g.N % g.T == 0 && first % g.T == 0
    requires b > 0 ==> Fits(g, r, first + b * g.T - 1)
    ensures Cursor(g, Address(g, r, first), b) == Address(g, r, first + b * g.T)
    decreases b
  {
    if b > 0 {
      var m := first + (b - 1) * g.T;
      assert b * g.T == (b - 1) * g.T + g.T;
      EarlierFits(g, r, m, m + g.T - 1);
      if b > 1 {
        TimesIsMonotone(1, b - 1, g.T);
        EarlierFits(g, r, m - 1, m + g.T - 1);
      }
      CursorFollowsStripe(g, r, first, b - 1);
      BatchStart(first, b - 1, g.T);
      BatchInLap(m, g.N, g.T);
      AdvanceInStripe(g, r, m, g.T);
    }
  }

  lemma BatchStart(first: nat, b: nat, t: nat)
    requires t > 0 && first % t == 0
    ensures (first + b * t) % t == 0
  {
    assert first + b * t == t * (first / t + b);
    TimesIsMultiple(t, first / t + b);
  }

  /** The pages of a batch lie one LUN apart. */
  lemma BatchPage(g: Geo, r: nat, m: nat, k: nat)
    requires Usable(g) && m % g.N + k < g.N
    ensures Address(g, r, m + k) == Address(g, r, m) + k * g.w
  {
    StepOn(m, k, g.N);
    Distribute(m % g.N, k, g.w);
  }

  lemma CursorFits(g: Geo, r: nat, first: nat, b: nat, n: nat)
    requires Usable(g) && Fits(g, r, first + n) && b * g.T <= n
    ensures b > 0 ==> first + b * g.T > 0 && Fits(g, r, first + b * g.T - 1)
  {
    if b > 0 {
      TimesIsMonotone(1, b, g.T);
      EarlierFits(g, r, first + b * g.T - 1, first + n);
    }
  }

  lemma BatchFollowsStripe(g: Geo, r: nat, first: nat, b: nat, k: nat)
    requires Usable(g) && g.N % g.T == 0 && first % g.T == 0 && k < g.T
    requires Fits(g, r, first + (b * g.T + k))
    ensures Cursor(g, Address(g, r, first), b) + k * g.w == Address(g, r, first + (b * g.T + k))
  {
    CursorFits(g, r, first, b, b * g.T + k);
    CursorFollowsStripe(g, r, first, b);
    BatchStart(first, b, g.T);
    var m := first + b * g.T;
    BatchInLap(m, g.N, g.T);
    BatchPage(g, r, m, k);
    assert m + k == first + (b * g.T + k);
  }

  lemma WritesFollowStripe(g: Geo, r: nat, first: nat, n: nat)
    requires Usable(g) && g.N % g.T == 0 && first % g.T == 0 && Fits(g, r, first + n)
    ensures Written(g, Address(g, r, first), n) == Address(g, r, first + n)
  {
    assert n == n / g.T * g.T + n % g.T;
    BatchFollowsStripe(g, r, first, n / g.T, n % g.T);
  }

  /** A run is read where it was written. */
  lemma ReadsWhatWasWritten(g: Geo, r: nat, first: nat, n: nat)
    requires Usable(g) && g.N % g.T == 0 && first % g.T == 0 && Fits(g, r, first + n)
    ensures ReadPoint(g, Address(g, r, first), n) == Written(g, Address(g, r, first), n)
  {
    if n > 0 {
      EarlierFits(g, r, first + n - 1, first + n);
    }
    ReadsFollowStripe(g, r, first, n);
    WritesFollowStripe(g, r, first, n);
  }

  /** A page stays within its LUN. */
  lemma PageInLun(g: Geo, r: nat, m: nat)
    requires Usable(g) && Fits(g, r, m)
    ensures m % g.N * g.w <= Address(g, r, m) && Address(g, r, m) + g.ws <= (m % g.N + 1) * g.w <= g.N * g.w
  {
    Distribute(m % g.N, 1, g.w);
    TimesIsMonotone(m % g.N + 1, g.N, g.w);
  }

  lemma LaterLap(m: nat, k: nat, d: nat)
    requires d > 0 && m < k && m % d == k % d
    ensures m / d + 1 <= k / d
  {
    if k / d <= m / d {
      TimesIsMonotone(k / d, m / d, d);
    }
  }

  /** No two pages of a stripe share a sector. */
  lemma PagesAreApart(g: Geo, r: nat, m: nat, k: nat)
    requires Usable(g) && Fits(g, r, m) && Fits(g, r, k) && m < k
    ensures Address(g, r, m) + g.ws <= Address(g, r, k) || Address(g, r, k) + g.ws <= Address(g, r, m)
  {
    PageInLun(g, r, m);
    PageInLun(g, r, k);
    if m % g.N < k % g.N {
      TimesIsMonotone(m % g.N + 1, k % g.N, g.w);
    } else if k % g.N < m % g.N {
      TimesIsMonotone(k % g.N + 1, m % g.N, g.w);
    } else {
      LaterLap(m, k, g.N);
      TimesIsMonotone(m / g.N + 1, k / g.N, g.ws);
      Distribute(m / g.N, 1, g.ws);
    }
  }

  // ---------- when the threads do not divide the LUNs ----------

  lemma StartOfStripe(g: Geo, r: nat)
    requires Usable(g)
    ensures Address(g, r, 0) == r
  {
    Quotient(0, g.N, 0, 0);
  }

  lemma InsideStripe(g: Geo, r: nat, l: nat)
    requires Usable(g) && r < g.w && l < g.N
    ensures l * g.w + r < g.N * g.w
  {
    TimesIsMonotone(l + 1, g.N, g.w);
    Distribute(l, 1, g.w);
  }

  lemma {:induction false} CursorBeforeEnd(g: Geo, f: nat, r: nat, b: nat)
    requires Usable(g) && r < g.w && f + b * g.T < g.N
    ensures Cursor(g, f * g.w + r, b) == (f + b * g.T) * g.w + r
    decreases b
  {
    if b > 0 {
      Distribute(b - 1, 1, g.T);
      CursorBeforeEnd(g, f, r, b - 1);
      Distribute(f + (b - 1) * g.T, g.T, g.w);
      InsideStripe(g, r, f + b * g.T);
    }
  }

  lemma BatchBeforeEnd(g: Geo, f: nat, r: nat, b: nat, k: nat)
    requires Usable(g) && r < g.w && f + b * g.T < g.N
    ensures Cursor(g, f * g.w + r, b) + k * g.w == (f + (b * g.T + k)) * g.w + r
  {
    CursorBeforeEnd(g, f, r, b);
    Distribute(f + b * g.T, k, g.w);
  }

  /** From LUN `f` up to the end of the stripe, and in a batch that crosses it even beyond, a written page lies one LUN after the one before. */
  lemma WrittenBeforeEnd(g: Geo, f: nat, r: nat, n: nat)
    requires Usable(g) && r < g.w && f + n / g.T * g.T < g.N
    ensures Written(g, f * g.w + r, n) == (f + n) * g.w + r
  {
    assert n == n / g.T * g.T + n % g.T;
    BatchBeforeEnd(g, f, r, n / g.T, n % g.T);
  }

  lemma InFirstLap(g: Geo, r: nat, m: nat)
    requires Usable(g) && m < g.N
    ensures Address(g, r, m) == m * g.w + r && (Fits(g, r, m) <==> r + g.ws <= g.w)
  {
    Quotient(m, g.N, 0, m);
  }

  lemma ReadBeforeEnd(g: Geo, f: nat, r: nat, n: nat)
    requires Usable(g) && r + g.ws <= g.w && f + n < g.N
    ensures ReadPoint(g, f * g.w + r, n) == (f + n) * g.w + r
  {
    InFirstLap(g, r, f);
    InFirstLap(g, r, f + n);
    if n > 0 {
      InFirstLap(g, r, f + n - 1);
    }
    ReadsFollowStripe(g, r, f, n);
  }

  lemma ReadAtEnd(g: Geo, f: nat, r: nat)
    requires Usable(g) && r + g.ws <= g.w && f < g.N
    ensures ReadPoint(g, f * g.w + r, g.N - f) == r + g.ws
  {
    InFirstLap(g, r, f);
    InFirstLap(g, r, g.N - 1);
    ReadsFollowStripe(g, r, f, g.N - f);
    Quotient(g.N, g.N, 1, 0);
  }

  /** Up to the end of the stripe a run is read where it was written. */
  lemma FirstLapAgrees(g: Geo, f: nat, r: nat, n: nat)
    requires Usable(g) && r + g.ws <= g.w && f + n < g.N
    ensures Written(g, f * g.w + r, n) == (f + n) * g.w + r == ReadPoint(g, f * g.w + r, n)
  {
    BatchIsBefore(n, g.T);
    WrittenBeforeEnd(g, f, r, n);
    ReadBeforeEnd(g, f, r, n);
  }

  lemma BatchIsBefore(n: nat, t: nat)
    requires t > 0
    ensures n / t * t <= n
    ensures n % t != 0 ==> n / t * t < n
  {
  }

  /** A run whose first lap is whole batches starts the next lap where a read does. */
  lemma CursorAtEnd(g: Geo, f: nat, r: nat)
    requires Usable(g) && r + g.ws <= g.w && f < g.N && (g.N - f) % g.T == 0
    ensures Cursor(g, f * g.w + r, (g.N - f) / g.T) == r + g.ws
  {
    var b := (g.N - f) / g.T;
    assert g.N - f == b * g.T;
    Distribute(b - 1, 1, g.T);
    CursorBeforeEnd(g, f, r, b - 1);
    Distribute(f + (b - 1) * g.T, g.T, g.w);
    AdvanceAround(g, r, (f + (b - 1) * g.T) * g.w + r, g.T * g.w);
  }

  /** Where the first page after the first lap is written: one page further on LUN 0, or, when a batch crosses the end, past the last LUN. */
  lemma WrittenAtEnd(g: Geo, f: nat, r: nat)
    requires Usable(g) && r + g.ws <= g.w && f < g.N
    ensures Written(g, f * g.w + r, g.N - f) == if (g.N - f) % g.T == 0 then r + g.ws else g.N * g.w + r
  {
    if (g.N - f) % g.T == 0 {
      CursorAtEnd(g, f, r);
    } else {
      BatchIsBefore(g.N - f, g.T);
      WrittenBeforeEnd(g, f, r, g.N - f);
    }
  }

  /** A batch that crosses the end of the stripe is written past its last LUN, while a read wraps around. */
  lemma BrokenBatch(g: Geo, f: nat, r: nat)
    requires Usable(g) && f < g.N && (g.N - f) % g.T != 0 && Fits(g, r, g.N)
    ensures Written(g, f * g.w + r, g.N - f) == g.N * g.w + r
    ensures ReadPoint(g, f * g.w + r, g.N - f) == r + g.ws
    ensures Written(g, f * g.w + r, g.N - f) != ReadPoint(g, f * g.w + r, g.N - f)
  {
    Quotient(g.N, g.N, 1, 0);
    WrittenAtEnd(g, f, r);
    ReadAtEnd(g, f, r);
    TimesIsMonotone(1, g.N, g.w);
  }

  // ---------- the next lap ----------

  lemma {:induction false} CursorContinues(g: Geo, s: nat, b: nat, k: nat)
    requires Usable(g)
    ensures Cursor(g, s, b + k) == Cursor(g, Cursor(g, s, b), k)
    decreases k
  {
    if k > 0 {
      CursorContinues(g, s, b, k - 1);
    }
  }

  lemma {:induction false} ReadContinues(g: Geo, s: nat, n: nat, k: nat)
    requires Usable(g)
    ensures ReadPoint(g, s, n + k) == ReadPoint(g, ReadPoint(g, s, n), k)
    decreases k
  {
    if k > 0 {
      ReadContinues(g, s, n, k - 1);
    }
  }

  lemma WrittenContinues(g: Geo, s: nat, n: nat, k: nat)
    requires Usable(g) && n % g.T == 0
    ensures Written(g, s, n + k) == Written(g, Cursor(g, s, n / g.T), k)
  {
    Distribute(n / g.T, k / g.T, g.T);
    assert n == n / g.T * g.T && k == k / g.T * g.T + k % g.T;
    Quotient(n + k, g.T, n / g.T + k / g.T, k % g.T);
    CursorContinues(g, s, n / g.T, k / g.T);
  }

  lemma NextLapFits(g: Geo, r: nat, m: nat)
    requires Usable(g) && Fits(g, r, g.N + m)
    ensures Fits(g, r + g.ws, m)
  {
    assert 1 * g.N == g.N;
    Distribute(1, m / g.N, g.N);
    Quotient(g.N + m, g.N, 1 + m / g.N, m % g.N);
    Distribute(1, m / g.N, g.ws);
  }

  // ---------- when the loops agree ----------

  ghost predicate SameAddresses(g: Geo, start: nat, pages: nat)
    requires Usable(g)
  {
    forall n :: 0 <= n < pages ==> Written(g, start, n) == ReadPoint(g, start, n)
  }

  lemma FitsFromStart(g: Geo, r: nat, m: nat)
    requires Usable(g) && Fits(g, r, m)
    ensures r + g.ws <= g.w
  {
  }

  lemma AgreeFromFirstLun(g: Geo, r: nat, pages: nat)
    requires Usable(g) && pages > 0 && Fits(g, r, pages - 1)
    ensures SameAddresses(g, r, pages) <==> g.N % g.T == 0 || pages <= g.N
  {
    FitsFromStart(g, r, pages - 1);
    assert 0 * g.w + r == r;
    if g.N % g.T == 0 {
      forall n | 0 <= n < pages
        ensures Written(g, r, n) == ReadPoint(g, r, n)
      {
        StartOfStripe(g, r);
        EarlierFits(g, r, n, pages - 1);
        ReadsWhatWasWritten(g, r, 0, n);
      }
    } else if pages <= g.N {
      forall n | 0 <= n < pages
        ensures Written(g, r, n) == ReadPoint(g, r, n)
      {
        FirstLapAgrees(g, 0, r, n);
      }
    } else {
      EarlierFits(g, r, g.N, pages - 1);
      BrokenBatch(g, 0, r);
    }
  }

  lemma AgreeInFirstLap(g: Geo, f: nat, r: nat, s: nat, pages: nat)
    requires Usable(g) && r + g.ws <= g.w && s == f * g.w + r && f + pages <= g.N
    ensures SameAddresses(g, s, pages)
  {
    forall n | 0 <= n < pages
      ensures Written(g, s, n) == ReadPoint(g, s, n)
    {
      FirstLapAgrees(g, f, r, n);
    }
  }

  /** After `lap` pages in whole batches both loops go on from the sector `t` at which they have arrived. */
  lemma AgreementContinues(g: Geo, s: nat, lap: nat, t: nat, pages: nat)
    requires Usable(g) && lap % g.T == 0 && lap <= pages && SameAddresses(g, s, lap)
    requires Cursor(g, s, lap / g.T) == t == ReadPoint(g, s, lap)
    ensures SameAddresses(g, s, pages) <==> SameAddresses(g, t, pages - lap)
  {
    if SameAddresses(g, t, pages - lap) {
      forall n | 0 <= n < pages
        ensures Written(g, s, n) == ReadPoint(g, s, n)
      {
        if n >= lap {
          WrittenContinues(g, s, lap, n - lap);
          ReadContinues(g, s, lap, n - lap);
        }
      }
    }
    if SameAddresses(g, s, pages) {
      forall k | 0 <= k < pages - lap
        ensures Written(g, t, k) == ReadPoint(g, t, k)
      {
        WrittenContinues(g, s, lap, k);
        ReadContinues(g, s, lap, k);
        assert Written(g, s, lap + k) == ReadPoint(g, s, lap + k);
      }
    }
  }

  /**
    A run that starts on LUN `f` is read where it was written exactly when it ends before the first wrap, or its first
    lap is whole batches and either every lap is or the run ends before the second wrap.
   */
  lemma AgreeExactlyWhen(g: Geo, f: nat, r: nat, pages: nat)
    requires Usable(g) && f < g.N && pages > 0 && Fits(g, r, f + pages - 1)
    ensures SameAddresses(g, f * g.w + r, pages) <==>
      pages <= g.N - f || ((g.N - f) % g.T == 0 && (g.N % g.T == 0 || pages <= 2 * g.N - f))
  {
    FitsFromStart(g, r, f + pages - 1);
    var s, lap := f * g.w + r, g.N - f;
    if pages <= lap {
      AgreeInFirstLap(g, f, r, s, pages);
    } else if lap % g.T != 0 {
      EarlierFits(g, r, g.N, f + pages - 1);
      BrokenBatch(g, f, r);
    } else {
      AgreeInFirstLap(g, f, r, s, lap);
      CursorAtEnd(g, f, r);
      ReadAtEnd(g, f, r);
      AgreementContinues(g, s, lap, r + g.ws, pages);
      NextLapFits(g, r, pages - lap - 1);
      AgreeFromFirstLun(g, r + g.ws, pages - lap);
    }
  }

  /** Two LUNs, two threads, and a run of two pages that starts on the second LUN: the threads divide the LUNs, and still
      the second page is written past the stripe and read from LUN 0. */
  lemma MisreadFromSecondLun()
    ensures var g := Channel(1, 1, 2 * 8, 4, 2);
      && g.N % g.T == 0 && ChannelStart(1, 2, 1, 8) == 16
      && Written(g, 16, 1) == 32 == g.N * g.w && ReadPoint(g, 16, 1) == 4
  {
    var g := Channel(1, 1, 2 * 8, 4, 2);
    assert g.w == 16 && g.N == 2;
    assert 1 / g.T == 0 && 1 % g.T == 1 && Cursor(g, 16, 0) == 16;
    assert ReadPoint(g, 16, 0) == 16;
  }

  // ---------- the write cursor for any number of threads ----------

  /** How often the cursor has wrapped after `b` batches: a batch wraps it at most once, even one of several laps. */
  function Wraps(g: Geo, f: nat, b: nat): nat
    requires Usable(g)
  {
    if g.T < g.N then (f + b * g.T) / g.N else b
  }

  /** A step of `t` LUNs from LUN `lun` past the end goes on at the LUN that is `t` further around, one page deeper. */
  lemma AdvanceAcross(g: Geo, o: nat, lun: nat, t: nat)
    requires Usable(g) && o < g.w && lun < g.N <= lun + t
    ensures Advance(g, lun * g.w + o, t * g.w) == (lun + t) % g.N * g.w + o + g.ws
  {
    var q, s := DivMod(lun + t, g.N);
    Distribute(lun, t, g.w);
    Distribute(q * g.N, s, g.w);
    assert q * g.N * g.w == q * (g.N * g.w);
    InsideStripe(g, o, s);
    BelowMultiple(g.N, lun + t, o, g.w);
    NonZero(g.N, g.w);
    Quotient((lun + t) * g.w + o, g.N * g.w, q, s * g.w + o);
  }

  lemma AroundTheLap(m: nat, t: nat, d: nat)
    requires d > 0
    ensures (m % d + t) % d == (m + t) % d
    ensures d <= m % d + t < 2 * d ==> (m + t) / d == m / d + 1
  {
    var q, s := DivMod(m % d + t, d);
    Distribute(m / d, q, d);
    Quotient(m + t, d, m / d + q, s);
    if d <= m % d + t < 2 * d {
      Quotient(m % d + t, d, 1, m % d + t - d);
      Quotient(m + t, d, m / d + 1, m % d + t - d);
    }
  }

  /** The batch after LUN `m mod N`. */
  lemma WrapsOneMore(g: Geo, f: nat, b: nat)
    requires Usable(g)
    ensures Wraps(g, f, b + 1) == Wraps(g, f, b) + if (f + b * g.T) % g.N + g.T < g.N then 0 else 1
  {
    var m := f + b * g.T;
    Distribute(b, 1, g.T);
    if m % g.N + g.T < g.N {
      StepOn(m, g.T, g.N);
    } else if g.T < g.N {
      AroundTheLap(m, g.T, g.N);
    }
  }

  /** The LUN on which batch `b` of a run from LUN `f` on starts. */
  function BatchLun(g: Geo, f: nat, b: nat): nat
    requires Usable(g)
  {
    (f + b * g.T) % g.N
  }

  /** How deep in its LUN the batch starts. */
  function BatchDepth(g: Geo, f: nat, r: nat, b: nat): nat
    requires Usable(g)
  {
    r + Wraps(g, f, b) * g.ws
  }

  lemma NextBatch(g: Geo, f: nat, r: nat, b: nat)
    requires Usable(g)
    ensures BatchLun(g, f, b + 1) == (BatchLun(g, f, b) + g.T) % g.N
    ensures BatchDepth(g, f, r, b + 1) == BatchDepth(g, f, r, b) + if BatchLun(g, f, b) + g.T < g.N then 0 else g.ws
  {
    WrapsOneMore(g, f, b);
    Distribute(b, 1, g.T);
    AroundTheLap(f + b * g.T, g.T, g.N);
    Distribute(Wraps(g, f, b), 1, g.ws);
  }

  lemma FirstBatch(g: Geo, f: nat, r: nat)
    requires Usable(g) && f < g.N
    ensures BatchLun(g, f, 0) == f && BatchDepth(g, f, r, 0) == r
  {
    assert 0 * g.T == 0 && 0 * g.ws == 0;
    Quotient(f, g.N, 0, f);
  }

  /**
    Whatever the threads divide: after `b` batches from LUN `f` on, the write cursor is `b * T` LUNs further around the
    stripe, one page deeper for each wrap.
   */
  lemma {:induction false} CursorAfterBatches(g: Geo, f: nat, r: nat, b: nat)
    requires Usable(g) && f < g.N && BatchDepth(g, f, r, b) < g.w
    ensures Cursor(g, f * g.w + r, b) == BatchLun(g, f, b) * g.w + BatchDepth(g, f, r, b)
    decreases b
  {
    if b == 0 {
      FirstBatch(g, f, r);
    } else {
      NextBatch(g, f, r, b - 1);
      CursorAfterBatches(g, f, r, b - 1);
      AdvanceByBatch(g, BatchDepth(g, f, r, b - 1), BatchLun(g, f, b - 1));
    }
  }

  lemma AdvanceByBatch(g: Geo, o: nat, lun: nat)
    requires Usable(g) && o < g.w && lun < g.N
    ensures Advance(g, lun * g.w + o, g.T * g.w) == (lun + g.T) % g.N * g.w + (o + if lun + g.T < g.N then 0 else g.ws)
  {
    if lun + g.T < g.N {
      Quotient(lun + g.T, g.N, 0, lun + g.T);
      Distribute(lun, g.T, g.w);
      AdvanceInside(g, o, lun + g.T, lun * g.w + o, g.T * g.w);
    } else {
      AdvanceAcross(g, o, lun, g.T);
    }
  }

  /** Where page `n` of a run from LUN `f` on is written, for any number of threads and in any batch. */
  lemma WrittenAnywhere(g: Geo, f: nat, r: nat, n: nat)
    requires Usable(g) && f < g.N && BatchDepth(g, f, r, n / g.T) < g.w
    ensures Written(g, f * g.w + r, n) == (BatchLun(g, f, n / g.T) + n % g.T) * g.w + BatchDepth(g, f, r, n / g.T)
  {
    CursorAfterBatches(g, f, r, n / g.T);
    Distribute(BatchLun(g, f, n / g.T), n % g.T, g.w);
  }

  /** The batch after one that crosses the end starts on the LUN behind its last page, taken around the stripe, one page deeper. */
  lemma AfterBrokenBatch(g: Geo, f: nat, r: nat)
    requires Usable(g) && f < g.N <= f + g.T && r < g.w
    ensures Written(g, f * g.w + r, g.T) == (f + g.T) % g.N * g.w + r + g.ws
  {
    Quotient(g.T, g.T, 1, 0);
    assert Cursor(g, f * g.w + r, 0) == f * g.w + r;
    AdvanceAcross(g, r, f, g.T);
  }

  /** Two LUNs, two threads, four pages from the second LUN on: sectors 16 and 32, then 20 and 36. */
  lemma FourPagesFromSecondLun()
    ensures var g := Channel(1, 1, 2 * 8, 4, 2);
      Written(g, 16, 0) == 16 && Written(g, 16, 1) == 32 && Written(g, 16, 2) == 20 && Written(g, 16, 3) == 36
  {
    var g := Channel(1, 1, 2 * 8, 4, 2);
    assert g.w == 16 && g.N == 2 && g.T == 2 && 1 * g.w + 0 == 16;
    assert 0 / g.T == 0 && 0 % g.T == 0 && 1 / g.T == 0 && 1 % g.T == 1;
    assert 2 / g.T == 1 && 2 % g.T == 0 && 3 / g.T == 1 && 3 % g.T == 1;
    assert Cursor(g, 16, 0) == 16 && Cursor(g, 16, 1) == Advance(g, 16, 32) == 20;
  }

  // ---------- channels ----------

  /** The stripe of channel `c`: all LUNs up to the end of its own `npunit`. */
  function Channel(c: nat, npunit: nat, w: nat, ws: nat, T: nat): Geo {
    Geo(w, (c + 1) * npunit, ws, T)
  }

  /** Where the pointer of channel `c` starts: the program counts `npugrp` chunks for each parallel unit, not `nchunk`. */
  function ChannelStart(c: nat, npugrp: nat, npunit: nat, nsectr: nat): nat {
    c * (npugrp * (npunit * nsectr))
  }

  /** The sector lies on a LUN of the stripe from `lo` on. */
  predicate OnLuns(g: Geo, lo: nat, a: nat) {
    lo * g.w <= a < g.N * g.w
  }

  lemma StartInStripe(g: Geo, s: nat)
    requires Usable(g) && s / g.w < g.N
    ensures s == Address(g, s % g.w, s / g.w)
  {
    Quotient(s / g.w, g.N, 0, s / g.w);
    assert s == s / g.w * g.w + s % g.w;
  }

  lemma OnLunsByLun(g: Geo, r: nat, lo: nat, m: nat)
    requires Usable(g) && Fits(g, r, m)
    ensures OnLuns(g, lo, Address(g, r, m)) <==> m % g.N >= lo
  {
    PageInLun(g, r, m);
    if m % g.N >= lo {
      TimesIsMonotone(lo, m % g.N, g.w);
    } else {
      TimesIsMonotone(m % g.N + 1, lo, g.w);
    }
  }

  lemma StartOnLuns(g: Geo, lo: nat, s: nat)
    requires Usable(g)
    ensures lo * g.w <= s <==> lo <= s / g.w
    ensures s < g.N * g.w <==> s / g.w < g.N
  {
    assert s == s / g.w * g.w + s % g.w;
    BelowMultiple(lo, s / g.w, s % g.w, g.w);
    BelowMultiple(g.N, s / g.w, s % g.w, g.w);
  }

  lemma BelowMultiple(lo: nat, q: nat, r: nat, w: nat)
    requires r < w
    ensures lo * w <= q * w + r <==> lo <= q
  {
    if lo <= q {
      TimesIsMonotone(lo, q, w);
    } else {
      TimesIsMonotone(q + 1, lo, w);
      Distribute(q, 1, w);
    }
  }

  /** All pages that a run from sector `s` on reads. */
  ghost predicate ReadOnLuns(g: Geo, lo: nat, s: nat, pages: nat)
    requires Usable(g)
  {
    forall n :: 0 <= n < pages ==> OnLuns(g, lo, ReadPoint(g, s, n))
  }

  /** A run that starts on LUN `lo` or behind stays there exactly if it ends with the stripe: the wrap leads to LUN 0. */
  lemma StaysExactlyWhen(g: Geo, lo: nat, s: nat, pages: nat)
    requires Usable(g) && 0 < lo && 0 < pages
    requires s / g.w < g.N ==> Fits(g, s % g.w, s / g.w + pages - 1)
    ensures ReadOnLuns(g, lo, s, pages) <==> lo * g.w <= s && s / g.w + pages <= g.N
  {
    StartOnLuns(g, lo, s);
    if lo <= s / g.w && s / g.w + pages <= g.N {
      forall n | 0 <= n < pages
        ensures OnLuns(g, lo, ReadPoint(g, s, n))
      {
        PageBeforeWrap(g, lo, s, pages, n);
      }
    } else if s / g.w < g.N && lo <= s / g.w {
      PageAtWrap(g, lo, s, pages);
    } else {
      assert ReadPoint(g, s, 0) == s;
    }
  }

  /** All pages that such a run writes. */
  ghost predicate WrittenOnLuns(g: Geo, lo: nat, s: nat, pages: nat)
    requires Usable(g)
  {
    forall n :: 0 <= n < pages ==> OnLuns(g, lo, Written(g, s, n))
  }

  /** The same holds of the pages written, whatever the threads divide: the first page behind the lap is on LUN 0 or past the last one. */
  lemma WritesStayExactlyWhen(g: Geo, lo: nat, s: nat, pages: nat)
    requires Usable(g) && 0 < lo && 0 < pages
    requires s / g.w < g.N ==> Fits(g, s % g.w, s / g.w + pages - 1)
    ensures WrittenOnLuns(g, lo, s, pages) <==> lo * g.w <= s && s / g.w + pages <= g.N
  {
    var f, r := s / g.w, s % g.w;
    StartOnLuns(g, lo, s);
    assert s == f * g.w + r;
    if lo <= f && f + pages <= g.N {
      forall n | 0 <= n < pages
        ensures OnLuns(g, lo, Written(g, s, n))
      {
        PageBeforeWrap(g, lo, s, pages, n);
        FitsFromStart(g, r, f + pages - 1);
        FirstLapAgrees(g, f, r, n);
      }
    } else if f < g.N && lo <= f {
      WriteAtWrapLeaves(g, lo, s, pages);
    } else {
      WrittenFirst(g, s);
      assert !OnLuns(g, lo, Written(g, s, 0));
    }
  }

  lemma WrittenFirst(g: Geo, s: nat)
    requires Usable(g)
    ensures Written(g, s, 0) == s
  {
    Quotient(0, g.T, 0, 0);
  }

  lemma WriteAtWrapLeaves(g: Geo, lo: nat, s: nat, pages: nat)
    requires Usable(g) && 0 < lo && s / g.w < g.N < s / g.w + pages
    requires Fits(g, s % g.w, s / g.w + pages - 1)
    ensures !OnLuns(g, lo, Written(g, s, g.N - s / g.w))
  {
    var f, r := s / g.w, s % g.w;
    assert s == f * g.w + r;
    EarlierFits(g, r, g.N, f + pages - 1);
    FitsFromStart(g, r, g.N);
    Quotient(g.N, g.N, 1, 0);
    WrittenAtEnd(g, f, r);
    TimesIsMonotone(1, lo, g.w);
  }

  lemma PageBeforeWrap(g: Geo, lo: nat, s: nat, pages: nat, n: nat)
    requires Usable(g) && n < pages && lo <= s / g.w && s / g.w + pages <= g.N
    requires Fits(g, s % g.w, s / g.w + pages - 1)
    ensures OnLuns(g, lo, ReadPoint(g, s, n))
  {
    PageOfRun(g, lo, s, pages, n);
    Quotient(s / g.w + n, g.N, 0, s / g.w + n);
  }

  lemma PageAtWrap(g: Geo, lo: nat, s: nat, pages: nat)
    requires Usable(g) && 0 < lo && s / g.w < g.N < s / g.w + pages
    requires Fits(g, s % g.w, s / g.w + pages - 1)
    ensures !OnLuns(g, lo, ReadPoint(g, s, g.N - s / g.w))
  {
    PageOfRun(g, lo, s, pages, g.N - s / g.w);
    Quotient(g.N, g.N, 1, 0);
  }

  lemma PageOfRun(g: Geo, lo: nat, s: nat, pages: nat, n: nat)
    requires Usable(g) && s / g.w < g.N && n < pages && Fits(g, s % g.w, s / g.w + pages - 1)
    ensures OnLuns(g, lo, ReadPoint(g, s, n)) <==> (s / g.w + n) % g.N >= lo
  {
    StartInStripe(g, s);
    PageOfStripe(g, lo, s % g.w, s / g.w, pages, n);
  }

  lemma PageOfStripe(g: Geo, lo: nat, r: nat, first: nat, pages: nat, n: nat)
    requires Usable(g) && n < pages && Fits(g, r, first + pages - 1)
    ensures OnLuns(g, lo, ReadPoint(g, Address(g, r, first), n)) <==> (first + n) % g.N >= lo
  {
    EarlierFits(g, r, first + n, first + pages - 1);
    if n > 0 {
      EarlierFits(g, r, first + n - 1, first + pages - 1);
    }
    ReadsFollowStripe(g, r, first, n);
    OnLunsByLun(g, r, lo, first + n);
  }

  /** Channel 0 starts at sector 0 and never leaves its stripe. */
  lemma FirstChannelStays(g: Geo, pages: nat)
    requires Usable(g) && (pages > 0 ==> Fits(g, 0, pages - 1))
    ensures ReadOnLuns(g, 0, 0, pages)
  {
    Quotient(0, g.w, 0, 0);
    forall n | 0 <= n < pages
      ensures OnLuns(g, 0, ReadPoint(g, 0, n))
    {
      PageOfRun(g, 0, 0, pages, n);
    }
  }

  /** Its writes leave the stripe exactly if a batch crosses the end. */
  lemma FirstChannelWrites(g: Geo, pages: nat)
    requires Usable(g) && (pages > 0 ==> Fits(g, 0, pages - 1))
    ensures WrittenOnLuns(g, 0, 0, pages) <==> g.N % g.T == 0 || pages <= g.N
  {
    Quotient(0, g.w, 0, 0);
    StartOfStripe(g, 0);
    if g.N % g.T == 0 || pages <= g.N {
      if pages > 0 {
        AgreeFromFirstLun(g, 0, pages);
      }
      FirstChannelStays(g, pages);
    } else {
      EarlierFits(g, 0, g.N, pages - 1);
      BrokenBatch(g, 0, 0);
      assert !OnLuns(g, 0, Written(g, 0, g.N));
    }
  }

  lemma SmallerFactor(k: nat, a: nat, b: nat)
    requires k > 0
    ensures k * a <= k * b <==> a <= b
  {
    if a <= b {
      TimesIsMonotone(a, b, k);
    } else {
      TimesIsMonotone(b + 1, a, k);
    }
  }

  lemma StartAgainstOwnLuns(c: nat, npugrp: nat, npunit: nat, nsectr: nat, nchunk: nat)
    requires c > 0 && npunit > 0 && nsectr > 0
    ensures c * npunit * (nchunk * nsectr) <= ChannelStart(c, npugrp, npunit, nsectr) <==> nchunk <= npugrp
  {
    var k := c * (npunit * nsectr);
    NonZero(npunit, nsectr);
    NonZero(c, npunit * nsectr);
    FourFactors(c, npunit, nchunk, nsectr);
    Exchange(c, npugrp, npunit * nsectr);
    SmallerFactor(k, nchunk, npugrp);
  }

  lemma FourFactors(a: nat, b: nat, x: nat, y: nat)
    ensures a * b * (x * y) == a * (b * y) * x
  {
    assert a * b * (x * y) == a * (b * (x * y));
    assert b * (x * y) == b * y * x;
    assert a * (b * y * x) == a * (b * y) * x;
  }

  lemma Exchange(a: nat, b: nat, c: nat)
    ensures a * (b * c) == a * c * b
  {
  }

  /**
    The pages that a run of channel `c` reads stay on the channel's own LUNs exactly if it is channel 0, or the device
    has at least as many parallel unit groups as chunks in a LUN and the run ends before the first wrap.  So do those
    that it writes, but on channel 0 only if the threads divide the LUNs or the run ends before the first wrap.
   */
  lemma ChannelKeepsToItself(c: nat, npugrp: nat, npunit: nat, nsectr: nat, nchunk: nat, ws: nat, T: nat, pages: nat)
    requires npunit > 0 && nsectr > 0 && nchunk > 0 && ws > 0 && T > 0 && pages > 0
    requires Usable(Channel(c, npunit, nchunk * nsectr, ws, T))
    requires var g, s := Channel(c, npunit, nchunk * nsectr, ws, T), ChannelStart(c, npugrp, npunit, nsectr);
      s / g.w < g.N ==> Fits(g, s % g.w, s / g.w + pages - 1)
    ensures var g, s := Channel(c, npunit, nchunk * nsectr, ws, T), ChannelStart(c, npugrp, npunit, nsectr);
      ReadOnLuns(g, c * npunit, s, pages) <==> c == 0 || (npugrp >= nchunk && s / g.w + pages <= g.N)
    ensures var g, s := Channel(c, npunit, nchunk * nsectr, ws, T), ChannelStart(c, npugrp, npunit, nsectr);
      WrittenOnLuns(g, c * npunit, s, pages) <==>
        if c == 0 then npunit % T == 0 || pages <= npunit else npugrp >= nchunk && s / g.w + pages <= g.N
  {
    var g, s := Channel(c, npunit, nchunk * nsectr, ws, T), ChannelStart(c, npugrp, npunit, nsectr);
    if c == 0 {
      Quotient(0, g.w, 0, 0);
      FirstChannelStays(g, pages);
      FirstChannelWrites(g, pages);
    } else {
      NonZero(c, npunit);
      StartAgainstOwnLuns(c, npugrp, npunit, nsectr, nchunk);
      StaysExactlyWhen(g, c * npunit, s, pages);
      WritesStayExactlyWhen(g, c * npunit, s, pages);
    }
  }

  /** From sector 0 on, lap `k` starts on LUN 0 behind the first `k` pages. */
  lemma ReadAtLap(g: Geo, k: nat)
    requires Usable(g) && k > 0 && k * g.ws <= g.w
    ensures ReadPoint(g, 0, k * g.N) == k * g.ws
  {
    StartOfStripe(g, 0);
    NonZero(k, g.N);
    Distribute(k - 1, 1, g.N);
    Distribute(k - 1, 1, g.ws);
    Quotient(k * g.N - 1, g.N, k - 1, g.N - 1);
    ReadsFollowStripe(g, 0, 0, k * g.N);
    Quotient(k * g.N, g.N, k, 0);
  }

  /** When the threads divide the LUNs, lap `k` is written from there on, too. */
  lemma WrittenAtLap(g: Geo, k: nat)
    requires Usable(g) && k > 0 && (k + 1) * g.ws <= g.w && g.N % g.T == 0
    ensures Written(g, 0, k * g.N) == k * g.ws
  {
    StartOfStripe(g, 0);
    Quotient(0, g.T, 0, 0);
    Quotient(k * g.N, g.N, k, 0);
    Distribute(k, 1, g.ws);
    WritesFollowStripe(g, 0, 0, k * g.N);
  }

  /**
    A run that starts on a whole page and wraps writes and reads a page that channel 0 uses, too, if its first lap is
    whole batches; if a batch crosses the end, the page is written past the run's last LUN.
   */
  lemma ChannelsCollide(g0: Geo, g: Geo, s: nat)
    requires Usable(g0) && Usable(g) && g0.w == g.w && g0.ws == g.ws && g0.N % g0.T == 0
    requires s / g.w < g.N && s % g.w % g.ws == 0 && s % g.w + 2 * g.ws <= g.w
    ensures var lap, k := g.N - s / g.w, s % g.w / g.ws + 1;
      && ReadPoint(g, s, lap) == ReadPoint(g0, 0, k * g0.N) == Written(g0, 0, k * g0.N)
      && Written(g, s, lap) == if lap % g.T == 0 then Written(g0, 0, k * g0.N) else g.N * g.w + s % g.w
  {
    QuotientTimes(s, g.w);
    QuotientTimes(s % g.w, g.ws);
    CollideAt(g0, g, s, s / g.w, s % g.w, s % g.w / g.ws);
  }

  lemma CollideAt(g0: Geo, g: Geo, s: nat, f: nat, r: nat, k: nat)
    requires Usable(g0) && Usable(g) && g0.w == g.w && g0.ws == g.ws && g0.N % g0.T == 0
    requires s == f * g.w + r && f < g.N && r == k * g.ws && r + 2 * g.ws <= g.w
    ensures ReadPoint(g, s, g.N - f) == ReadPoint(g0, 0, (k + 1) * g0.N) == Written(g0, 0, (k + 1) * g0.N) == r + g.ws
    ensures Written(g, s, g.N - f) == if (g.N - f) % g.T == 0 then r + g.ws else g.N * g.w + r
  {
    Distribute(k, 1, g.ws);
    Distribute(k + 1, 1, g.ws);
    ReadAtEnd(g, f, r);
    ReadAtLap(g0, k + 1);
    WrittenAtLap(g0, k + 1);
    WrittenAtEnd(g, f, r);
  }

  /** Two groups of one unit with two chunks of two pages each, one thread: channel 1 starts on its own LUN, and its second page is written to channel 0's second. */
  lemma SecondPagesCollide()
    ensures var g0, g1 := Channel(0, 1, 2 * 8, 4, 1), Channel(1, 1, 2 * 8, 4, 1);
      && ReadPoint(g1, ChannelStart(1, 2, 1, 8), 1) == 4 == ReadPoint(g0, ChannelStart(0, 2, 1, 8), 1)
      && Written(g1, ChannelStart(1, 2, 1, 8), 1) == 4 == Written(g0, ChannelStart(0, 2, 1, 8), 1)
  {
    var g0, g1 := Channel(0, 1, 2 * 8, 4, 1), Channel(1, 1, 2 * 8, 4, 1);
    assert ReadPoint(g1, 16, 0) == 16 && ReadPoint(g0, 0, 0) == 0;
    assert Cursor(g1, 16, 0) == 16 && Cursor(g0, 0, 0) == 0;
    assert 1 / g1.T == 1 && 1 % g1.T == 0;
  }

  // ---------- the loops ----------

  class Coordinator {
    const nchunk: nat
    const nsectr: nat
    const npunit: nat
    const ws_min: nat
    const max_os_threads: nat
    var channel_current_pointer: array<nat>

    /** As `main` sets the pointers. */
    constructor (nchunk: nat, nsectr: nat, npunit: nat, npugrp: nat, ws_min: nat, max_os_threads: nat)
      requires nchunk > 0 && nsectr > 0 && npunit > 0 && ws_min > 0 && max_os_threads > 0
      ensures Valid() && channel_current_pointer.Length == npugrp
      ensures forall c :: 0 <= c < npugrp ==> channel_current_pointer[c] == ChannelStart(c, npugrp, npunit, nsectr)
    {
      this.nchunk, this.nsectr, this.npunit := nchunk, nsectr, npunit;
      this.ws_min, this.max_os_threads := ws_min, max_os_threads;
      channel_current_pointer := new nat[npugrp];
      new;
      SetPointers(npugrp * (npunit * nsectr));
    }

    method SetPointers(channel_width: nat)
      modifies channel_current_pointer
      ensures forall c :: 0 <= c < channel_current_pointer.Length ==> channel_current_pointer[c] == c * channel_width
    {
      for c := 0 to channel_current_pointer.Length
        invariant forall d :: 0 <= d < c ==> channel_current_pointer[d] == d * channel_width
      {
        if c == 0 {
          channel_current_pointer[c] := 0;
        } else {
          Distribute(c - 1, 1, channel_width);
          channel_current_pointer[c] := channel_current_pointer[c - 1] + channel_width;
        }
      }
    }

    ghost predicate Valid() {
      nchunk > 0 && nsectr > 0 && npunit > 0 && ws_min > 0 && max_os_threads > 0
    }

    function Lun(): nat {
      nchunk * nsectr
    }

    /** The stripe of a channel; its `N * w` sectors are `(num_pug + 1)` times the channel width. */
    function Stripe(num_pug: nat): (g: Geo)
      requires Valid()
      ensures Usable(g) && g.w == Lun() && g.ws == ws_min && g.T == max_os_threads
      ensures g.N * g.w == (num_pug + 1) * (Lun() * npunit)
    {
      NonZero(nchunk, nsectr);
      NonZero(num_pug + 1, npunit);
      Regroup(num_pug + 1, Lun(), npunit);
      Channel(num_pug, npunit, Lun(), ws_min, max_os_threads)
    }

    /** One round of the writing loop: a page for each thread, then the channel's pointer moves on. */
    method WriteBatch(g: Geo, num_pug: nat, ghost start: nat, ghost b: nat, page_num: seq<nat>) returns (handed: seq<nat>)
      requires Usable(g) && num_pug < channel_current_pointer.Length
      requires |page_num| == b * g.T && AreWritten(g, start, page_num)
      requires channel_current_pointer[num_pug] == Cursor(g, start, b)
      modifies channel_current_pointer
      ensures |handed| == |page_num| + g.T && AreWritten(g, start, handed)
      ensures channel_current_pointer[num_pug] == Cursor(g, start, b + 1)
      ensures OthersKept(num_pug, old(channel_current_pointer[..]))
    {
      var cwrite_point_lun := channel_current_pointer[num_pug];
      handed := HandOut(g, start, b, page_num, cwrite_point_lun);
      channel_current_pointer[num_pug] := Advance(g, cwrite_point_lun, g.T * g.w);
    }

    ghost predicate OthersKept(num_pug: nat, was: seq<nat>)
      reads this, channel_current_pointer
    {
      && channel_current_pointer.Length == |was|
      && forall c :: 0 <= c < |was| && c != num_pug ==> channel_current_pointer[c] == was[c]
    }

    /** The loop over the batches of at most `nchunk` pages. */
    method WriteChunk(g: Geo, num_pug: nat, ghost start: nat, ghost b: nat, page_num: seq<nat>, batch_pages: nat)
      returns (handed: seq<nat>, ghost b': nat)
      requires Usable(g) && num_pug < channel_current_pointer.Length && batch_pages % g.T == 0
      requires |page_num| == b * g.T && AreWritten(g, start, page_num)
      requires channel_current_pointer[num_pug] == Cursor(g, start, b)
      modifies channel_current_pointer
      ensures |handed| == b' * g.T == |page_num| + batch_pages && AreWritten(g, start, handed)
      ensures channel_current_pointer[num_pug] == Cursor(g, start, b')
      ensures OthersKept(num_pug, old(channel_current_pointer[..]))
    {
      handed, b' := page_num, b;
      var j := 0;
      while j < batch_pages
        invariant j <= batch_pages && j % g.T == 0
        invariant |handed| == b' * g.T == |page_num| + j && AreWritten(g, start, handed)
        invariant channel_current_pointer[num_pug] == Cursor(g, start, b')
        invariant OthersKept(num_pug, old(channel_current_pointer[..]))
      {
        NextMultiple(j, batch_pages, g.T);
        Multiples(j, g.T, g.T);
        Distribute(b', 1, g.T);
        handed := WriteBatch(g, num_pug, start, b', handed);
        j, b' := j + g.T, b' + 1;
      }
    }

    /** The page numbers handed to the writing threads for a run of `pages` pages. */
    method Write(num_pug: nat, pages: nat) returns (page_num: seq<nat>)
      requires Valid() && num_pug < channel_current_pointer.Length
      requires pages % max_os_threads == 0 && nchunk % max_os_threads == 0
      modifies channel_current_pointer
      ensures |page_num| == pages && AreWritten(Stripe(num_pug), old(channel_current_pointer[num_pug]), page_num)
      ensures channel_current_pointer[num_pug] ==
        Cursor(Stripe(num_pug), old(channel_current_pointer[num_pug]), pages / max_os_threads)
      ensures OthersKept(num_pug, old(channel_current_pointer[..]))
    {
      page_num := WriteRun(Stripe(num_pug), num_pug, pages, nchunk);
    }

    method WriteRun(g: Geo, num_pug: nat, pages: nat, nchunk: nat) returns (page_num: seq<nat>)
      requires Usable(g) && num_pug < channel_current_pointer.Length
      requires nchunk > 0 && pages % g.T == 0 && nchunk % g.T == 0
      modifies channel_current_pointer
      ensures |page_num| == pages && AreWritten(g, old(channel_current_pointer[num_pug]), page_num)
      ensures channel_current_pointer[num_pug] == Cursor(g, old(channel_current_pointer[num_pug]), pages / g.T)
      ensures OthersKept(num_pug, old(channel_current_pointer[..]))
    {
      ghost var start := channel_current_pointer[num_pug];
      page_num := [];
      ghost var b := 0;
      var i := 0;
      while i < pages
        invariant i % g.T == 0
        invariant |page_num| == b * g.T == (if i < pages then i else pages) && AreWritten(g, start, page_num)
        invariant channel_current_pointer[num_pug] == Cursor(g, start, b)
        invariant OthersKept(num_pug, old(channel_current_pointer[..]))
      {
        var batch_pages := if pages - i < nchunk then pages - i else nchunk;
        Multiples(pages, i, g.T);
        Multiples(i, nchunk, g.T);
        page_num, b := WriteChunk(g, num_pug, start, b, page_num, batch_pages);
        i := i + nchunk;
      }
      Quotient(pages, g.T, b, 0);
    }

    /** The page numbers read for a run of `pages` pages. */
    method Read(num_pug: nat, start_page: nat, pages: nat) returns (page_num: seq<nat>)
      requires Valid()
      ensures |page_num| == pages && AreRead(Stripe(num_pug), start_page, page_num)
    {
      page_num := ReadRun(Stripe(num_pug), start_page, pages);
    }
  }

  /** A page for each thread. */
  method HandOut(g: Geo, ghost start: nat, ghost b: nat, page_num: seq<nat>, cwrite_point_lun: nat) returns (handed: seq<nat>)
    requires Usable(g) && |page_num| == b * g.T && AreWritten(g, start, page_num)
    requires cwrite_point_lun == Cursor(g, start, b)
    ensures |handed| == |page_num| + g.T && AreWritten(g, start, handed)
  {
    handed := page_num;
    for k := 0 to g.T
      invariant |handed| == |page_num| + k && AreWritten(g, start, handed)
    {
      WrittenInBatch(g, start, b, k);
      handed := handed + [cwrite_point_lun + k * g.w];
    }
  }

  /** Whole batches first, then the rest. */
  method ReadRun(g: Geo, start_page: nat, pages: nat) returns (page_num: seq<nat>)
    requires Usable(g)
    ensures |page_num| == pages && AreRead(g, start_page, page_num)
  {
    page_num := [];
    var batchs, remainder_bacths := pages / g.T, pages % g.T;
    assert pages == batchs * g.T + remainder_bacths;
    var cread_point_lun := start_page;
    for i := 0 to batchs
      invariant |page_num| == i * g.T && cread_point_lun == ReadPoint(g, start_page, |page_num|)
      invariant AreRead(g, start_page, page_num)
    {
      Distribute(i, 1, g.T);
      page_num, cread_point_lun := ReadPages(g, start_page, page_num, cread_point_lun, g.T);
    }
    page_num, cread_point_lun := ReadPages(g, start_page, page_num, cread_point_lun, remainder_bacths);
  }

  method ReadPages(g: Geo, ghost start: nat, page_num: seq<nat>, cursor: nat, count: nat) returns (read: seq<nat>, next: nat)
    requires Usable(g) && cursor == ReadPoint(g, start, |page_num|) && AreRead(g, start, page_num)
    ensures |read| == |page_num| + count && next == ReadPoint(g, start, |read|) && AreRead(g, start, read)
  {
    read, next := page_num, cursor;
    for j := 0 to count
      invariant |read| == |page_num| + j && next == ReadPoint(g, start, |read|) && AreRead(g, start, read)
    {
      read := read + [next];
      next := Advance(g, next, g.w);
    }
  }

  ghost predicate AreRead(g: Geo, start: nat, page_num: seq<nat>)
    requires Usable(g)
  {
    forall n :: 0 <= n < |page_num| ==> page_num[n] == ReadPoint(g, start, n)
  }

  ghost predicate AreWritten(g: Geo, start: nat, page_num: seq<nat>)
    requires Usable(g)
  {
    forall n :: 0 <= n < |page_num| ==> page_num[n] == Written(g, start, n)
  }

  lemma WrittenInBatch(g: Geo, start: nat, b: nat, k: nat)
    requires Usable(g) && k < g.T
    ensures Written(g, start, b * g.T + k) == Cursor(g, start, b) + k * g.w
  {
    Quotient(b * g.T + k, g.T, b, k);
  }

  lemma Regroup(a: nat, b: nat, c: nat)
    ensures a * (b * c) == (a * c) * b
  {
  }
}
