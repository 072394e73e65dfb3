/** The two query paths over collected samples: the scan of the ring with its downsampling, and
    the bucket averages of the table. */
module MetricsQuery {
  import opened MetricsRing

  // ---------- The window ----------

  /** The ring scan: newest first, stopping at the first sample before the cutoff. */
  function Scan(h: seq<Sample>, cutoff: int): seq<Sample> {
    if h == [] || h[|h| - 1].time < cutoff then [] else [h[|h| - 1]] + Scan(h[..|h| - 1], cutoff)
  }

  lemma CleanAllOld(h: seq<Sample>, cutoff: int)
    requires forall i :: 0 <= i < |h| ==> h[i].time < cutoff
    ensures Clean(h, cutoff) == []
  {
  }

  lemma {:induction false} CleanConcat(a: seq<Sample>, b: seq<Sample>, cutoff: int)
    ensures Clean(a + b, cutoff) == Clean(a, cutoff) + Clean(b, cutoff)
    decreases |b|
  {
    if b == [] {
      assert a + b == a;
    } else {
      var n := |b| - 1;
      assert a + b == (a + b[..n]) + [b[n]];
      assert b == b[..n] + [b[n]];
      CleanConcat(a, b[..n], cutoff);
      CleanSnoc(a + b[..n], b[n], cutoff);
      CleanSnoc(b[..n], b[n], cutoff);
      hide Clean;
    }
  }

  /** Stopping early misses nothing: for times that do not go back, the scan is the whole window,
      newest first. */
  lemma {:induction false} EarlyStopIsSound(h: seq<Sample>, cutoff: int)
    requires Nondecreasing(h)
    ensures Scan(h, cutoff) == Reverse(Clean(h, cutoff))
    decreases |h|
  {
    if h == [] {
    } else {
      var n := |h| - 1;
      assert h == h[..n] + [h[n]];
      CleanSnoc(h[..n], h[n], cutoff);
      if h[n].time < cutoff {
        CleanAllOld(h[..n], cutoff);
      } else {
        EarlyStopIsSound(h[..n], cutoff);
        var window := Clean(h[..n], cutoff) + [h[n]];
        assert window[..|window| - 1] == Clean(h[..n], cutoff);
      }
    }
  }

  /** Samples at least one collection interval apart, none after `now`. */
  ghost predicate Spaced(h: seq<Sample>, now: int) {
    && (forall i :: 0 <= i < |h| - 1 ==> h[i].time + INTERVAL <= h[i + 1].time)
    && (h != [] ==> h[|h| - 1].time <= now)
  }

  lemma {:induction false} SpacedAge(h: seq<Sample>, now: int, i: nat)
    requires Spaced(h, now) && i < |h|
    ensures h[|h| - 1 - i].time <= now - INTERVAL * i
    ensures forall j :: |h| - 1 - i <= j < |h| ==> h[|h| - 1 - i].time <= h[j].time
    decreases i
  {
    if i == 0 {
    } else {
      SpacedAge(h, now, i - 1);
      assert h[|h| - 1 - i].time + INTERVAL <= h[|h| - 1 - i + 1].time;
    }
  }

  lemma SpacedIsOrdered(h: seq<Sample>, now: int)
    requires Spaced(h, now)
    ensures Nondecreasing(h)
  {
    forall i, j | 0 <= i < j < |h|
      ensures h[i].time <= h[j].time
    {
      SpacedAge(h, now, |h| - 1 - i);
    }
  }

  /** The sample just beyond the ring, when the window still reaches it. */
  function Missed(h: seq<Sample>, cutoff: int): seq<Sample> {
    if |h| > MAX_SAMPLES && h[|h| - MAX_SAMPLES - 1].time >= cutoff then [h[|h| - MAX_SAMPLES - 1]] else []
  }

  /** For every window the ring serves, scanning the ring gives the whole history in the window,
      newest first, but for at most the oldest sample; one is missed exactly when the window is
      the full 1800 s and the 361st newest sample lies on its edge. */
  lemma RingWindowExactly(h: seq<Sample>, now: int, window: nat)
    requires Spaced(h, now) && window <= MAX_SAMPLES * INTERVAL
    ensures Reverse(Clean(h, now - window)) == Scan(Last(h, MAX_SAMPLES), now - window) + Missed(h, now - window)
    ensures Missed(h, now - window) != [] <==>
              window == MAX_SAMPLES * INTERVAL && |h| > MAX_SAMPLES && h[|h| - MAX_SAMPLES - 1].time == now - window
  {
    SpacedIsOrdered(h, now);
    BeyondRing(h, now, window);
    hide Spaced;
    RingAndMissed(h, now - window);
  }

  /** The sample beyond the ring is at least the full window old, any older one older than that. */
  lemma BeyondRing(h: seq<Sample>, now: int, window: nat)
    requires Spaced(h, now) && window <= MAX_SAMPLES * INTERVAL
    ensures |h| > MAX_SAMPLES ==> h[|h| - MAX_SAMPLES - 1].time <= now - MAX_SAMPLES * INTERVAL
    ensures |h| > MAX_SAMPLES + 1 ==> h[|h| - MAX_SAMPLES - 2].time < now - window
  {
    if |h| > MAX_SAMPLES {
      SpacedAge(h, now, MAX_SAMPLES);
      if |h| > MAX_SAMPLES + 1 { SpacedAge(h, now, MAX_SAMPLES + 1); }
    }
  }

  lemma RingAndMissed(h: seq<Sample>, cutoff: int)
    requires Nondecreasing(h)
    requires |h| > MAX_SAMPLES + 1 ==> h[|h| - MAX_SAMPLES - 2].time < cutoff
    ensures Reverse(Clean(h, cutoff)) == Scan(Last(h, MAX_SAMPLES), cutoff) + Missed(h, cutoff)
  {
    LastIsOrdered(h, MAX_SAMPLES);
    EarlyStopIsSound(Last(h, MAX_SAMPLES), cutoff);
    hide Nondecreasing, Clean, Scan, Reverse;
    if |h| <= MAX_SAMPLES {
      NothingBefore([], Scan(h, cutoff));
    } else {
      var edge := |h| - MAX_SAMPLES - 1;
      assert Last(h, MAX_SAMPLES) == h[edge + 1..];
      assert Missed(h, cutoff) == if h[edge].time >= cutoff then [h[edge]] else [];
      hide Last, Missed;
      EdgeJoins(h, edge, Last(h, MAX_SAMPLES), cutoff);
    }
  }

  lemma LastIsOrdered(h: seq<Sample>, n: nat)
    requires Nondecreasing(h)
    ensures Nondecreasing(Last(h, n))
  {
  }

  lemma EdgeJoins(h: seq<Sample>, edge: nat, recent: seq<Sample>, cutoff: int)
    requires Nondecreasing(h) && edge < |h| && recent == h[edge + 1..]
    requires edge > 0 ==> h[edge - 1].time < cutoff
    ensures Reverse(Clean(h, cutoff))
            == Reverse(Clean(recent, cutoff)) + if h[edge].time >= cutoff then [h[edge]] else []
  {
    hide Nondecreasing, Clean, Reverse;
    OlderThanRing(h, edge, cutoff);
    ReverseCons(h[edge], Clean(recent, cutoff));
    NothingBefore([], Reverse(Clean(recent, cutoff)));
  }

  lemma ReverseCons<T>(x: T, s: seq<T>)
    ensures Reverse([x] + s) == Reverse(s) + [x]
  {
    ReverseConcat([x], s);
    assert [x][..0] == [];
  }

  lemma OlderThanRing(h: seq<Sample>, edge: nat, cutoff: int)
    requires Nondecreasing(h) && edge < |h| && (edge > 0 ==> h[edge - 1].time < cutoff)
    ensures var newer := Clean(h[edge + 1..], cutoff);
            Clean(h, cutoff) == if h[edge].time >= cutoff then [h[edge]] + newer else newer
  {
    var older, upTo, newer := h[..edge], h[..edge + 1], h[edge + 1..];
    PrefixIsOld(h, edge, cutoff);
    hide Clean, Nondecreasing;
    assert upTo == older + [h[edge]] && h == upTo + newer;
    CleanSnoc(older, h[edge], cutoff);
    CleanConcat(upTo, newer, cutoff);
    NothingBefore([h[edge]], Clean(newer, cutoff));
  }

  lemma NothingBefore<T>(one: seq<T>, s: seq<T>)
    ensures [] + one == one && [] + s == s && s + [] == s
  {
  }

  lemma PrefixIsOld(h: seq<Sample>, n: nat, cutoff: int)
    requires Nondecreasing(h) && n <= |h| && (n > 0 ==> h[n - 1].time < cutoff)
    ensures Clean(h[..n], cutoff) == []
  {
    forall i | 0 <= i < n
      ensures h[..n][i].time < cutoff
    {
      if i < n - 1 { assert h[i].time <= h[n - 1].time; }
    }
    CleanAllOld(h[..n], cutoff);
  }

  lemma {:induction false} ReverseConcat<T>(a: seq<T>, b: seq<T>)
    ensures Reverse(a + b) == Reverse(b) + Reverse(a)
    decreases |b|
  {
    if b == [] {
      assert a + b == a;
    } else {
      var front, last := b[..|b| - 1], b[|b| - 1];
      ReverseConcat(a, front);
      assert a + b == (a + front) + [last];
      ReverseSnoc(a + front, last);
      ReverseSnoc(front, last);
      assert b == front + [last];
      hide Reverse;
      assert [last] + (Reverse(front) + Reverse(a)) == [last] + Reverse(front) + Reverse(a);
    }
  }

  lemma ReverseSnoc<T>(s: seq<T>, x: T)
    ensures Reverse(s + [x]) == [x] + Reverse(s)
  {
    assert (s + [x])[..|s|] == s;
  }

  /** With a sample every five seconds from second 0 to second 1800, the ring misses the first,
      which lies on the edge of the full window. */
  lemma EdgeSampleMissed()
    ensures var h := seq(MAX_SAMPLES + 1, i => Sample(INTERVAL * i, 0.0));
            && Spaced(h, 1800) && Clean(h, 0) == h
            && Missed(h, 0) == [h[0]] && h[0] !in Scan(Last(h, MAX_SAMPLES), 0)
  {
    var h := seq(MAX_SAMPLES + 1, i => Sample(INTERVAL * i, 0.0));
    CleanRecent(h, 0);
    ScanWithin(Last(h, MAX_SAMPLES), 0);
  }

  lemma ScanWithin(h: seq<Sample>, cutoff: int)
    ensures forall s :: s in Scan(h, cutoff) ==> s in h
  {
  }

  /** In every state of every run the ring gives the whole window of the history, which is what
      the table held at the last start and everything collected since, but for the edge sample. */
  lemma RingShowsHistory(states: seq<State>, events: seq<Event>, n: nat, now: int, window: nat)
    requires IsRun(states, events) && n <= |events|
    requires Spaced(states[n].history, now) && window <= MAX_SAMPLES * INTERVAL
    ensures var h, cutoff := states[n].history, now - window;
            && Reverse(Clean(h, cutoff)) == Scan(states[n].ring, cutoff) + Missed(h, cutoff)
            && (Missed(h, cutoff) != [] ==> window == MAX_SAMPLES * INTERVAL)
  {
    RunKeepsInv(states, events, n);
    RingWindowExactly(states[n].history, now, window);
    hide Spaced, Clean, Scan, Missed, Reverse;
  }

  /** In every state of every run the table holds the whole window of the history, as long as no
      retention pass reached into the window. */
  lemma TableHoldsHistory(states: seq<State>, events: seq<Event>, n: nat, cutoff: int)
    requires IsRun(states, events) && n <= |events|
    requires forall c :: c in states[n].cutoffs ==> c <= cutoff
    ensures Clean(states[n].table, cutoff) == Clean(states[n].history, cutoff)
  {
    RunKeepsInv(states, events, n);
    var st := states[n];
    var gone := |st.history| - |st.table|;
    assert forall i :: 0 <= i < gone ==> st.history[..gone][i] == st.history[i];
    CleanAllOld(st.history[..gone], cutoff);
    assert st.history == st.history[..gone] + st.table;
    CleanConcat(st.history[..gone], st.table, cutoff);
  }

  // ---------- Downsampling ----------

  /** A computed position that floating point may put up to a thousandth off, but not at 0. */
  predicate Near(pos: real, i: nat, n: nat, p: nat)
    requires p > 0
  {
    var exact := i as real * (n as real / p as real);
    -0.001 <= pos - exact <= 0.001 && (i == 0 ==> pos == 0.0)
  }

  lemma ScaledOrder(a: real, b: real, p: real)
    requires p > 0.0
    ensures a * p <= b * p ==> a <= b
    ensures a <= b ==> a * p <= b * p
  {
  }

  lemma RatioBounds(n: nat, p: nat) returns (step: real)
    requires 0 < p < n <= MAX_SAMPLES
    ensures step == n as real / p as real
    ensures step * p as real == n as real
    ensures 360.0 * step >= 361.0
  {
    step := n as real / p as real;
    assert (p + 1) as real == p as real + 1.0;
    RatioAtLeast(n as real, p as real);
  }

  lemma RatioAtLeast(n: real, p: real)
    requires 0.0 < p <= 359.0 && p + 1.0 <= n
    ensures 360.0 * (n / p) >= 361.0 && n / p * p == n
  {
    var step := n / p;
    var excess := 360.0 * (step - 1.0);
    assert step * p == n;
    assert excess * p == 360.0 * n - 360.0 * p;
    assert 1.0 * p <= excess * p;
    ScaledOrder(1.0, excess, p);
    assert excess == 360.0 * step - 360.0;
  }

  /** Positions near i * n/p pick rows in bounds and strictly further each time, from the newest. */
  lemma PicksAdvance(n: nat, p: nat, i: nat, pos: real, next: real)
    requires 0 < p < n <= MAX_SAMPLES && i < p && Near(pos, i, n, p)
    ensures 0 <= pos.Floor < n && (i == 0 ==> pos.Floor == 0)
    ensures Near(next, i + 1, n, p) ==> pos.Floor < next.Floor
  {
    var step := RatioBounds(n, p);
    NearMeans(pos, i, n, p, step);
    NearMeans(next, i + 1, n, p, step);
    hide Near;
    assert (i + 1) as real == i as real + 1.0 && (i > 0 ==> i as real >= 1.0);
    PicksByStep(i as real, p as real, n as real, step, pos, next);
  }

  lemma PicksByStep(x: real, p: real, n: real, step: real, pos: real, next: real)
    requires 0.0 <= x <= p - 1.0 && step * p == n && 360.0 * step >= 361.0 && (x == 0.0 || x >= 1.0)
    requires x * step - 0.001 <= pos <= x * step + 0.001 && (x == 0.0 ==> pos == 0.0)
    ensures 0 <= pos.Floor && pos.Floor as real < n && (x == 0.0 ==> pos.Floor == 0)
    ensures (x + 1.0) * step - 0.001 <= next ==> pos.Floor < next.Floor
  {
    ExactBounds(x, p, n, step);
    Distribute(x, 1.0, step);
    var exact := x * step;
    NearlyAt(pos, exact, n, step, x == 0.0);
    if exact + step - 0.001 <= next {
      FloorsApart(pos, next, exact, step);
    }
  }

  lemma NearMeans(pos: real, i: nat, n: nat, p: nat, step: real)
    requires p > 0 && step == n as real / p as real
    ensures Near(pos, i, n, p) <==>
            i as real * step - 0.001 <= pos <= i as real * step + 0.001 && (i == 0 ==> pos == 0.0)
  {
  }

  lemma ExactBounds(x: real, p: real, n: real, step: real)
    requires 0.0 <= x <= p - 1.0 && step > 0.0 && step * p == n
    ensures x * step <= n - step
    ensures x >= 1.0 ==> x * step >= step
  {
    Distribute(p, -1.0, step);
    ScaledOrder(x, p - 1.0, step);
    ScaledOrder(1.0, x, step);
  }

  lemma Distribute(a: real, b: real, c: real)
    ensures (a + b) * c == a * c + b * c
  {
  }

  lemma NearlyAt(pos: real, exact: real, n: real, step: real, first: bool)
    requires 360.0 * step >= 361.0 && exact <= n - step && exact - 0.001 <= pos <= exact + 0.001
    requires if first then pos == 0.0 else exact >= step
    ensures 0 <= pos.Floor && pos.Floor as real < n && (first ==> pos.Floor == 0)
  {
  }

  lemma FloorsApart(pos: real, next: real, exact: real, step: real)
    requires 360.0 * step >= 361.0 && pos <= exact + 0.001 && exact + step - 0.001 <= next
    ensures pos.Floor < next.Floor
  {
  }

  /** Picks spread evenly over `n` rows: the i-th is i * n/p rounded down, up to a thousandth. */
  ghost predicate Evenly(picks: seq<nat>, n: nat, p: nat) {
    && |picks| == p
    && forall i :: 0 <= i < p ==> IsPick(picks[i], i, n, p)
  }

  ghost predicate IsPick(pick: nat, i: nat, n: nat, p: nat) {
    1000 * pick * p <= 1000 * i * n + p && 1000 * i * n < 1000 * (pick + 1) * p + p
  }

  /** A position near the exact one picks its row. */
  lemma NearPicks(n: nat, p: nat, i: nat, pos: real)
    requires p > 0 && Near(pos, i, n, p) && pos.Floor >= 0
    ensures IsPick(pos.Floor, i, n, p)
  {
    var rp, rn, ri, pick := p as real, n as real, i as real, pos.Floor;
    var step := rn / rp;
    assert step * rp == rn;
    NearMeans(pos, i, n, p, step);
    hide Near;
    PickScaled(pos, pick as real, ri, step, rp, rn);
    PickProducts(pick, i, n, p);
    Thousandfold(pick * p, (pick + 1) * p, i * n, p);
  }

  lemma PickScaled(pos: real, pick: real, i: real, step: real, p: real, n: real)
    requires p > 0.0 && step * p == n && pick <= pos < pick + 1.0
    requires i * step - 0.001 <= pos <= i * step + 0.001
    ensures pick * p <= i * n + 0.001 * p && i * n - 0.001 * p < (pick + 1.0) * p
  {
    ExactScaled(i, step, p, n);
    PickAround(pick, i * step, p, i * n);
  }

  lemma PickAround(pick: real, exact: real, p: real, x: real)
    requires p > 0.0 && exact * p == x && pick <= exact + 0.001 && exact - 0.001 < pick + 1.0
    ensures pick * p <= x + 0.001 * p && x - 0.001 * p < (pick + 1.0) * p
  {
    var t, low, high, next := 0.001 * p, exact - 0.001, exact + 0.001, pick + 1.0;
    SumScaled(exact, 0.001, p, x, t);
    SumScaled(low, 0.001, p, low * p, t);
    ScaleOrder(pick, high, p, pick * p, high * p);
    ScaleOrder(low, next, p, low * p, next * p);
    assert low + 0.001 == exact;
    assert high * p == x + t;
    assert low * p == x - t;
  }

  lemma ScaleOrder(bound: real, moved: real, p: real, b: real, m: real)
    requires p > 0.0 && b == bound * p && m == moved * p
    ensures bound <= moved ==> b <= m
    ensures bound < moved ==> b < m
  {
  }

  lemma SumScaled(exact: real, shift: real, p: real, e: real, s: real)
    requires e == exact * p && s == shift * p
    ensures (exact + shift) * p == e + s
  {
  }

  lemma ExactScaled(i: real, step: real, p: real, n: real)
    requires step * p == n
    ensures i * step * p == i * n
  {
    Associate(i, step, p);
  }

  lemma Thousandfold(low: int, high: int, x: int, p: int)
    ensures low as real <= x as real + 0.001 * p as real ==> 1000 * low <= 1000 * x + p
    ensures x as real - 0.001 * p as real < high as real ==> 1000 * x < 1000 * high + p
  {
  }

  lemma Associate(a: real, b: real, c: real)
    ensures a * b * c == a * (b * c)
  {
  }

  lemma PickProducts(pick: nat, i: nat, n: nat, p: nat)
    ensures pick as real * p as real == (pick * p) as real && i as real * n as real == (i * n) as real
    ensures (pick as real + 1.0) * p as real == ((pick + 1) * p) as real
    ensures 1000 * pick * p == 1000 * (pick * p) && 1000 * i * n == 1000 * (i * n)
    ensures 1000 * (pick + 1) * p == 1000 * ((pick + 1) * p)
  {
    assert (pick + 1) as real == pick as real + 1.0;
  }

  /** Evenly spread picks are never further apart than the rounded-up step and one. */
  lemma PickGap(picks: seq<nat>, n: nat, p: nat, i: nat)
    requires p > 0 && Evenly(picks, n, p) && i + 1 < p
    ensures picks[i + 1] - picks[i] <= (n + p - 1) / p + 1
  {
    var a, b, c := picks[i], picks[i + 1], (n + p - 1) / p;
    DivParts(n + p - 1, p);
    assert (i + 1) * n == i * n + n;
    assert IsPick(a, i, n, p) && IsPick(b, i + 1, n, p);
    GapArithmetic(a, b, c, i * n, n, p);
  }

  lemma GapArithmetic(a: int, b: int, c: int, x: int, n: int, p: nat)
    requires p > 0 && 1000 * (b * p) <= 1000 * (x + n) + p && 1000 * x < 1000 * ((a + 1) * p) + p && n <= c * p
    ensures b - a <= c + 1
  {
    MulOrder(a + c + 2, b, p);
    assert (a + c + 2) * p == (a + 1) * p + c * p + p;
  }

  lemma DivBelow(x: nat, p: nat, q: nat)
    requires 0 < p && x < q * p
    ensures x / p < q
  {
    assert x == x / p * p + x % p;
    MulCancel(x / p, q, p);
  }

  lemma MulCancel(a: int, b: int, p: int)
    requires p > 0 && a * p < b * p
    ensures a < b
  {
  }

  /** In exact arithmetic no gap between picked rows exceeds the rounded-up step. */
  lemma ExactGap(n: nat, p: nat, i: nat)
    requires 0 < p
    ensures (i + 1) * n / p - i * n / p <= (n + p - 1) / p
  {
    var x := i * n;
    var a, c := x / p, (n + p - 1) / p;
    assert (i + 1) * n == x + n;
    assert x == a * p + x % p && n + p - 1 == c * p + (n + p - 1) % p;
    assert (a + 1 + c) * p == a * p + p + c * p;
    DivBelow(x + n, p, a + 1 + c);
  }

  // ---------- Bucket averages ----------

  /** The bucket width for a window and a number of points. */
  function BucketSeconds(window: nat, points: nat): (b: nat)
    requires points > 0
    ensures b > 0 && (b == 1 || b * points <= window) && window < (b + 1) * points
  {
    WidthFits(window, points);
    if window / points < 1 then 1 else window / points
  }

  lemma WidthFits(window: nat, points: nat)
    requires points > 0
    ensures window / points * points <= window < (window / points + 1) * points
    ensures window / points < 1 ==> window < 2 * points
  {
    var q := window / points;
    DivParts(window, points);
    assert (q + 1) * points == q * points + points;
  }

  /** The start of a time's bucket; collected times are after the epoch. */
  function BucketStart(t: nat, b: nat): nat
    requires b > 0
  {
    t / b * b
  }

  /** A bucket: its start, the sum and the number of its samples. */
  datatype Bucket = Bucket(start: nat, sum: real, n: nat)

  ghost predicate AfterEpoch(rows: seq<Sample>) {
    forall i :: 0 <= i < |rows| ==> rows[i].time >= 0
  }

  /** GROUP BY bucket, ORDER BY bucket descending, over rows in primary-key order. */
  function Group(rows: seq<Sample>, b: nat): seq<Bucket>
    requires b > 0 && AfterEpoch(rows)
    decreases |rows|
  {
    if rows == [] then []
    else
      var last, older := rows[|rows| - 1], Group(rows[..|rows| - 1], b);
      var start := BucketStart(last.time, b);
      if older != [] && older[0].start == start then
        [Bucket(start, older[0].sum + last.value, older[0].n + 1)] + older[1..]
      else [Bucket(start, last.value, 1)] + older
  }

  /** The rows of one bucket. */
  function InBucket(rows: seq<Sample>, start: nat, b: nat): seq<Sample>
    requires b > 0 && AfterEpoch(rows)
    decreases |rows|
  {
    if rows == [] then []
    else
      var last, older := rows[|rows| - 1], InBucket(rows[..|rows| - 1], start, b);
      if BucketStart(last.time, b) == start then older + [last] else older
  }

  function Total(rows: seq<Sample>): real {
    if rows == [] then 0.0 else Total(rows[..|rows| - 1]) + rows[|rows| - 1].value
  }

  lemma TotalSnoc(rows: seq<Sample>, s: Sample)
    ensures Total(rows + [s]) == Total(rows) + s.value
  {
    assert (rows + [s])[..|rows|] == rows;
  }

  lemma BucketStarts(t: nat, u: nat, b: nat)
    requires b > 0 && t <= u
    ensures BucketStart(t, b) <= t < BucketStart(t, b) + b
    ensures BucketStart(t, b) <= BucketStart(u, b)
    ensures BucketStart(t, b) < BucketStart(u, b) ==> BucketStart(t, b) + b <= BucketStart(u, b)
    ensures BucketStart(t, b) % b == 0
  {
    var x, y := t / b, u / b;
    DivParts(t, b);
    DivParts(u, b);
    if x > y { MulOrder(y, x, b); }
    MulOrder(x, y, b);
    MultipleOf(x, b);
  }

  lemma DivParts(t: nat, b: nat)
    requires b > 0
    ensures t == t / b * b + t % b && 0 <= t % b < b
  {
  }

  lemma MulOrder(x: int, y: int, b: nat)
    ensures x <= y ==> x * b <= y * b
    ensures x < y ==> x * b + b <= y * b
  {
    var n := y - x;
    assert y * b == x * b + n * b;
    assert n >= 0 ==> n * b >= 0;
    assert n >= 1 ==> n * b >= b;
  }

  lemma MultipleOf(x: nat, b: nat)
    requires b > 0
    ensures x * b % b == 0
  {
    DivParts(x * b, b);
    var q := x * b / b;
    MulOrder(q, x, b);
    MulOrder(x, q, b);
  }

  // ---------- What the bucket query promises ----------

  lemma AfterEpochPrefix(rows: seq<Sample>)
    requires rows != [] && AfterEpoch(rows)
    ensures AfterEpoch(rows[..|rows| - 1]) && rows[|rows| - 1].time >= 0
  {
  }

  /** Nonempty buckets, newest first, each a multiple of the width and so at least one apart. */
  ghost predicate Ordered(g: seq<Bucket>, b: nat)
    requires b > 0
  {
    && (forall i :: 0 <= i < |g| ==> g[i].start % b == 0 && g[i].n > 0)
    && (forall i, j :: 0 <= i < j < |g| ==> g[j].start + b <= g[i].start)
  }

  lemma OrderedExtends(g: seq<Bucket>, g': seq<Bucket>, start: nat, last: Sample, b: nat)
    requires b > 0 && Ordered(g, b) && Extends(g, g', start, last)
    requires start % b == 0 && (g != [] && g[0].start != start ==> g[0].start + b <= start)
    ensures Ordered(g', b)
  {
    if g != [] && g[0].start != start {
      forall j | 0 < j < |g'|
        ensures g'[j].start + b <= start
      {
        assert g'[j] == g[j - 1];
      }
    }
  }

  /** The buckets of a query are ordered, and the newest is that of the newest row. */
  lemma {:induction false} GroupOrdered(rows: seq<Sample>, b: nat)
    requires b > 0 && AfterEpoch(rows) && Nondecreasing(rows)
    ensures var g := Group(rows, b);
            && Ordered(g, b)
            && (g == [] <==> rows == [])
            && (rows != [] ==> g[0].start == BucketStart(rows[|rows| - 1].time, b))
    decreases |rows|
  {
    if rows == [] {
    } else {
      AfterEpochPrefix(rows);
      var n := |rows| - 1;
      var older, last := rows[..n], rows[n];
      GroupOrdered(older, b);
      if n > 0 {
        BucketStarts(rows[n - 1].time, last.time, b);
        assert older[n - 1] == rows[n - 1];
      }
      BucketStarts(last.time, last.time, b);
      GroupStep(rows, b);
      hide BucketStart, Group, Nondecreasing, Ordered;
      OrderedExtends(Group(older, b), Group(rows, b), BucketStart(last.time, b), last, b);
    }
  }

  /** Each bucket is exactly the group of its rows: their number and their sum. */
  lemma {:induction false} GroupIsGroupBy(rows: seq<Sample>, b: nat, start: nat)
    requires b > 0 && AfterEpoch(rows) && Nondecreasing(rows)
    ensures Agrees(Group(rows, b), start, InBucket(rows, start, b))
    decreases |rows|
  {
    if rows == [] {
    } else {
      AfterEpochPrefix(rows);
      var n := |rows| - 1;
      var older, last := rows[..n], rows[n];
      GroupIsGroupBy(older, b, start);
      TotalSnoc(InBucket(older, start, b), last);
      GroupStep(rows, b);
      GroupOrdered(older, b);
      GroupOrdered(rows, b);
      if n > 0 {
        BucketStarts(rows[n - 1].time, last.time, b);
      }
      GroupByStep(Group(older, b), Group(rows, b), BucketStart(last.time, b), b, start,
                  InBucket(older, start, b), last);
    }
  }

  /** The last row joins the newest bucket or opens one before it. */
  ghost predicate Extends(g: seq<Bucket>, g': seq<Bucket>, start: nat, last: Sample) {
    if g != [] && g[0].start == start then
      |g'| == |g| && g'[0] == Bucket(start, g[0].sum + last.value, g[0].n + 1) &&
      forall i :: 1 <= i < |g| ==> g'[i] == g[i]
    else
      |g'| == |g| + 1 && g'[0] == Bucket(start, last.value, 1) &&
      forall i :: 1 <= i < |g'| ==> g'[i] == g[i - 1]
  }

  /** A bucket list that agrees with the rows of one bucket. */
  ghost predicate Agrees(g: seq<Bucket>, start: nat, own: seq<Sample>) {
    && (own == [] <==> forall i :: 0 <= i < |g| ==> g[i].start != start)
    && (forall i :: 0 <= i < |g| && g[i].start == start ==> g[i].n == |own| && g[i].sum == Total(own))
  }

  lemma GroupByStep(g: seq<Bucket>, g': seq<Bucket>, key: nat, b: nat, start: nat, own: seq<Sample>, last: Sample)
    requires Extends(g, g', key, last) && Agrees(g, start, own)
    requires b > 0 && forall i, j :: 0 <= i < j < |g'| ==> g'[j].start + b <= g'[i].start
    requires Total(own + [last]) == Total(own) + last.value
    ensures Agrees(g', start, if key == start then own + [last] else own)
  {
    assert own == [] ==> Total(own) == 0.0;
    hide Total;
    if key == start {
      assert g'[0].start == start;
      assert forall i :: 1 <= i < |g'| ==> g'[i].start != start;
      if g == [] || g[0].start != start {
        assert forall i :: 0 <= i < |g| ==> g[i] == g'[i + 1];
      }
    } else if g != [] && g[0].start == key {
      assert forall i :: 0 <= i < |g| ==> g'[i].start == g[i].start;
    } else {
      assert forall i :: 0 <= i < |g| ==> g'[i + 1] == g[i];
    }
  }

  lemma GroupStep(rows: seq<Sample>, b: nat)
    requires b > 0 && AfterEpoch(rows) && rows != []
    ensures AfterEpoch(rows[..|rows| - 1])
    ensures var g, g', last := Group(rows[..|rows| - 1], b), Group(rows, b), rows[|rows| - 1];
            var start := BucketStart(last.time, b);
            Extends(g, g', start, last)
  {
    var g, last := Group(rows[..|rows| - 1], b), rows[|rows| - 1];
    AddRow(g, BucketStart(last.time, b), last);
    hide BucketStart, Extends, AfterEpoch;
  }

  lemma AddRow(g: seq<Bucket>, start: nat, last: Sample)
    ensures Extends(g, if g != [] && g[0].start == start
                       then [Bucket(start, g[0].sum + last.value, g[0].n + 1)] + g[1..]
                       else [Bucket(start, last.value, 1)] + g, start, last)
  {
  }

  function Sums(g: seq<Bucket>): real {
    if g == [] then 0.0 else g[0].sum + Sums(g[1..])
  }

  function Counts(g: seq<Bucket>): nat {
    if g == [] then 0 else g[0].n + Counts(g[1..])
  }

  /** Before the limit, the buckets carry every sample once: counts and sums are conserved. */
  lemma {:induction false} GroupConserves(rows: seq<Sample>, b: nat)
    requires b > 0 && AfterEpoch(rows)
    ensures Counts(Group(rows, b)) == |rows| && Sums(Group(rows, b)) == Total(rows)
    decreases |rows|
  {
    if rows == [] {
    } else {
      AfterEpochPrefix(rows);
      GroupConserves(rows[..|rows| - 1], b);
      var g, g' := Group(rows[..|rows| - 1], b), Group(rows, b);
      assert g'[1..] == g || (g != [] && g'[1..] == g[1..]);
      hide BucketStart;
    }
  }

  function Average(bucket: Bucket): real
    requires bucket.n > 0
  {
    bucket.sum / bucket.n as real
  }

  lemma {:induction false} TotalBetween(rows: seq<Sample>, low: real, high: real)
    requires forall i :: 0 <= i < |rows| ==> low <= rows[i].value <= high
    ensures low * |rows| as real <= Total(rows) <= high * |rows| as real
    decreases |rows|
  {
    if rows == [] {
    } else {
      var n := |rows| - 1;
      TotalBetween(rows[..n], low, high);
      assert |rows| as real == n as real + 1.0;
      assert low * |rows| as real == low * n as real + low;
      assert high * |rows| as real == high * n as real + high;
    }
  }

  /** A returned average lies between the least and the greatest value of its bucket, and times
      the bucket's count gives back the bucket's sum. */
  lemma AverageIsMean(rows: seq<Sample>, b: nat, i: nat, low: real, high: real)
    requires b > 0 && AfterEpoch(rows) && Nondecreasing(rows) && i < |Group(rows, b)|
    requires forall s :: s in InBucket(rows, Group(rows, b)[i].start, b) ==> low <= s.value <= high
    ensures var bucket := Group(rows, b)[i];
            bucket.n > 0 && low <= Average(bucket) <= high && Average(bucket) * bucket.n as real == bucket.sum
  {
    hide Group, InBucket, Nondecreasing, AfterEpoch;
    var bucket := Group(rows, b)[i];
    GroupOrdered(rows, b);
    GroupIsGroupBy(rows, b, bucket.start);
    var own := InBucket(rows, bucket.start, b);
    TotalBetween(own, low, high);
    MeanBetween(bucket.sum, bucket.n as real, low, high);
  }

  lemma MeanBetween(sum: real, n: real, low: real, high: real)
    requires n > 0.0 && low * n <= sum <= high * n
    ensures low <= sum / n <= high && sum / n * n == sum
  {
    var a := sum / n;
    assert a * n == sum;
    ScaledOrder(low, a, n);
    ScaledOrder(a, high, n);
  }

  /** LIMIT. */
  function Limit<T>(s: seq<T>, n: nat): seq<T> {
    if |s| <= n then s else s[..n]
  }

  /** What the limit drops is old: a row in the window whose bucket is not returned is within
      b + P - 1 seconds of the window's start, and no row is dropped when the window is shorter
      than the number of points. */
  lemma LimitDropsOnlyOldest(rows: seq<Sample>, now: nat, window: nat, points: nat, r: nat)
    requires points > 0 && AfterEpoch(rows) && Nondecreasing(rows)
    requires forall i :: 0 <= i < |rows| ==> now - window <= rows[i].time <= now
    requires r < |rows|
    ensures var b := BucketSeconds(window, points);
            var returned := Limit(Group(rows, b), points);
            (forall i :: 0 <= i < |returned| ==> returned[i].start != BucketStart(rows[r].time, b)) ==>
              window >= points && rows[r].time < now - window + b + points - 1
  {
    hide Group, InBucket, BucketStart, BucketSeconds;
    var b := BucketSeconds(window, points);
    var g := Group(rows, b);
    var start := BucketStart(rows[r].time, b);
    GroupOrdered(rows, b);
    RowHasBucket(rows, b, r);
    GroupIsGroupBy(rows, b, start);
    var k :| 0 <= k < |g| && g[k].start == start;
    if k < points {
      assert Limit(g, points)[k].start == start;
    } else {
      BucketsApart(g, b, k);
      BucketStarts(rows[r].time, rows[r].time, b);
      BucketStarts(rows[|rows| - 1].time, rows[|rows| - 1].time, b);
      MulOrder(points, k, b);
      DroppedIsOld(now, window, points, rows[r].time, start);
    }
  }

  lemma DroppedIsOld(now: nat, window: nat, points: nat, t: nat, start: nat)
    requires points > 0 && now - window <= t < start + BucketSeconds(window, points)
    requires start + points * BucketSeconds(window, points) <= now
    ensures window >= points && t < now - window + BucketSeconds(window, points) + points - 1
  {
    DivParts(window, points);
    var q := window / points;
    assert points * q == q * points;
  }

  lemma {:induction false} RowHasBucket(rows: seq<Sample>, b: nat, r: nat)
    requires b > 0 && AfterEpoch(rows) && r < |rows|
    ensures InBucket(rows, BucketStart(rows[r].time, b), b) != []
    decreases |rows|
  {
    AfterEpochPrefix(rows);
    if r == |rows| - 1 {
    } else {
      assert rows[..|rows| - 1][r] == rows[r];
      RowHasBucket(rows[..|rows| - 1], b, r);
    }
  }

  lemma {:induction false} BucketsApart(g: seq<Bucket>, b: nat, k: nat)
    requires k < |g| && forall i, j :: 0 <= i < j < |g| ==> g[j].start + b <= g[i].start
    ensures g[k].start + k * b <= g[0].start
    decreases k
  {
    if k == 0 {
    } else {
      BucketsApart(g, b, k - 1);
      assert k * b == (k - 1) * b + b;
    }
  }

  // ---------- The response to a table query ----------

  /** A row of a response: a time and a value. */
  datatype Point = Point(time: int, value: real)

  function Least(rows: seq<Sample>): real
    requires rows != []
  {
    var last := rows[|rows| - 1].value;
    if |rows| == 1 || last < Least(rows[..|rows| - 1]) then last else Least(rows[..|rows| - 1])
  }

  function Greatest(rows: seq<Sample>): real
    requires rows != []
  {
    var last := rows[|rows| - 1].value;
    if |rows| == 1 || last > Greatest(rows[..|rows| - 1]) then last else Greatest(rows[..|rows| - 1])
  }

  lemma LeastAndGreatest(rows: seq<Sample>)
    requires rows != []
    ensures forall s :: s in rows ==> Least(rows) <= s.value <= Greatest(rows)
    ensures exists s :: s in rows && s.value == Least(rows)
    ensures exists s :: s in rows && s.value == Greatest(rows)
    decreases |rows|
  {
    var n := |rows| - 1;
    assert rows == rows[..n] + [rows[n]] && rows[n] in rows;
    if n == 0 {
    } else {
      LeastAndGreatest(rows[..n]);
    }
  }

  /** A point is the mean of the rows of one bucket, between the least and the greatest of them. */
  ghost predicate IsMeanOf(p: Point, rows: seq<Sample>, b: nat)
    requires b > 0 && AfterEpoch(rows)
  {
    && p.time >= 0 && p.time % b == 0
    && var own := InBucket(rows, p.time, b);
       && own != [] && p.value * |own| as real == Total(own)
       && Least(own) <= p.value <= Greatest(own)
  }

  ghost predicate Shown(points: seq<Point>, start: int) {
    exists i :: 0 <= i < |points| && points[i].time == start
  }

  /** What a response says about the rows of its window: newest bucket first, each point the mean
      of its bucket, and every bucket shown but for the oldest beyond a full response. */
  ghost predicate Answers(points: seq<Point>, rows: seq<Sample>, b: nat, limit: nat)
    requires b > 0 && AfterEpoch(rows)
  {
    && |points| <= limit
    && (forall i, j :: 0 <= i < j < |points| ==> points[j].time + b <= points[i].time)
    && (forall i :: 0 <= i < |points| ==> IsMeanOf(points[i], rows, b))
    && (forall r :: 0 <= r < |rows| ==>
          || Shown(points, BucketStart(rows[r].time, b))
          || (|points| == limit && forall i :: 0 <= i < |points| ==> rows[r].time < points[i].time))
  }

  /** The points of a list of buckets. */
  ghost predicate Averages(points: seq<Point>, buckets: seq<Bucket>) {
    && |points| == |buckets|
    && forall i :: 0 <= i < |buckets| ==>
         buckets[i].n > 0 && points[i] == Point(buckets[i].start, Average(buckets[i]))
  }

  /** Grouping, averaging and limiting answers the query. */
  lemma AveragesAnswer(points: seq<Point>, rows: seq<Sample>, b: nat, limit: nat)
    requires b > 0 && AfterEpoch(rows) && Nondecreasing(rows)
    requires Averages(points, Limit(Group(rows, b), limit))
    ensures Answers(points, rows, b, limit)
  {
    GroupOrdered(rows, b);
    var g := Group(rows, b);
    hide Group, Nondecreasing, BucketStart, IsMeanOf, AfterEpoch;
    forall i | 0 <= i < |points|
      ensures IsMeanOf(points[i], rows, b)
    {
      assert points[i] == Point(g[i].start, Average(g[i]));
      AverageIsMeanOf(rows, b, i);
    }
    forall r | 0 <= r < |rows|
      ensures Shown(points, BucketStart(rows[r].time, b)) ||
              (|points| == limit && forall i :: 0 <= i < |points| ==> rows[r].time < points[i].time)
    {
      RowIsShown(points, rows, b, limit, r);
    }
  }

  lemma RowIsShown(points: seq<Point>, rows: seq<Sample>, b: nat, limit: nat, r: nat)
    requires b > 0 && AfterEpoch(rows) && Nondecreasing(rows) && r < |rows|
    requires Averages(points, Limit(Group(rows, b), limit))
    ensures rows[r].time >= 0
    ensures Shown(points, BucketStart(rows[r].time, b)) ||
            (|points| == limit && forall i :: 0 <= i < |points| ==> rows[r].time < points[i].time)
  {
    hide Group, Nondecreasing, BucketStart, AfterEpoch;
    var g := Group(rows, b);
    GroupOrdered(rows, b);
    var k := BucketOfRow(rows, b, r);
    if k < |points| {
      assert points[k].time == BucketStart(rows[r].time, b);
    }
  }

  lemma BucketOfRow(rows: seq<Sample>, b: nat, r: nat) returns (k: nat)
    requires b > 0 && AfterEpoch(rows) && Nondecreasing(rows) && r < |rows|
    ensures var g, t := Group(rows, b), rows[r].time;
            t >= 0 && k < |g| && g[k].start == BucketStart(t, b) && g[k].start <= t < g[k].start + b
  {
    hide Group, InBucket, BucketStart, Nondecreasing;
    var g, t := Group(rows, b), rows[r].time;
    RowHasBucket(rows, b, r);
    GroupIsGroupBy(rows, b, BucketStart(t, b));
    BucketStarts(t, t, b);
    k :| 0 <= k < |g| && g[k].start == BucketStart(t, b);
  }

  lemma AverageIsMeanOf(rows: seq<Sample>, b: nat, i: nat)
    requires b > 0 && AfterEpoch(rows) && Nondecreasing(rows) && i < |Group(rows, b)|
    ensures var bucket := Group(rows, b)[i];
            bucket.n > 0 && IsMeanOf(Point(bucket.start, Average(bucket)), rows, b)
  {
    hide Group, InBucket, Nondecreasing, AfterEpoch, Least, Greatest, Total;
    var bucket := Group(rows, b)[i];
    GroupOrdered(rows, b);
    GroupIsGroupBy(rows, b, bucket.start);
    var own := InBucket(rows, bucket.start, b);
    LeastAndGreatest(own);
    AverageIsMean(rows, b, i, Least(own), Greatest(own));
  }

  /** A response shows every row but those within b + P - 1 seconds of the window's start, and
      every row when the window is shorter than the number of points. */
  lemma UnshownIsOldest(points: seq<Point>, rows: seq<Sample>, now: int, window: nat, limit: nat, r: nat)
    requires limit > 0 && AfterEpoch(rows) && Nondecreasing(rows) && r < |rows|
    requires forall i :: 0 <= i < |rows| ==> now - window <= rows[i].time <= now
    requires Averages(points, Limit(Group(rows, BucketSeconds(window, limit)), limit))
    ensures var b := BucketSeconds(window, limit);
            !Shown(points, BucketStart(rows[r].time, b)) ==>
              window >= limit && rows[r].time < now - window + b + limit - 1
  {
    var b := BucketSeconds(window, limit);
    var buckets := Limit(Group(rows, b), limit);
    hide Group, Nondecreasing, BucketStart, BucketSeconds, Limit;
    assert rows[r].time >= 0;
    LimitDropsOnlyOldest(rows, now, window, limit, r);
    forall i | 0 <= i < |buckets| && buckets[i].start == BucketStart(rows[r].time, b)
      ensures Shown(points, BucketStart(rows[r].time, b))
    {
      assert points[i].time == buckets[i].start;
    }
  }

  /** What a response says determines it. */
  lemma AnswerIsUnique(p: seq<Point>, q: seq<Point>, rows: seq<Sample>, b: nat, limit: nat)
    requires b > 0 && AfterEpoch(rows) && Answers(p, rows, b, limit) && Answers(q, rows, b, limit)
    ensures p == q
  {
    hide InBucket, BucketStart, IsMeanOf, AfterEpoch, Total;
    AnswersAgree(p, q, rows, b, limit, if |p| <= |q| then |p| else |q|);
    if |p| < |q| {
      NextIsShown(q, p, rows, b, limit, |p|);
    } else if |q| < |p| {
      NextIsShown(p, q, rows, b, limit, |q|);
    }
  }

  lemma {:induction false} AnswersAgree(p: seq<Point>, q: seq<Point>, rows: seq<Sample>, b: nat, limit: nat, n: nat)
    requires b > 0 && AfterEpoch(rows) && Answers(p, rows, b, limit) && Answers(q, rows, b, limit)
    requires n <= |p| && n <= |q|
    ensures p[..n] == q[..n]
    decreases n
  {
    if n == 0 {
    } else {
      AnswersAgree(p, q, rows, b, limit, n - 1);
      var k := n - 1;
      assert forall i :: 0 <= i < k ==> p[i] == p[..k][i] && q[i] == q[..k][i];
      NextIsShown(p, q, rows, b, limit, k);
      NextIsShown(q, p, rows, b, limit, k);
      assert p[k].time == q[k].time;
      OneMean(p[k], q[k], rows, b);
      hide Answers;
      assert p[..n] == p[..k] + [p[k]] && q[..n] == q[..k] + [q[k]];
    }
  }

  /** After a common beginning, the next point of one response is no later than that of another. */
  lemma NextIsShown(p: seq<Point>, q: seq<Point>, rows: seq<Sample>, b: nat, limit: nat, k: nat)
    requires b > 0 && AfterEpoch(rows) && Answers(p, rows, b, limit) && Answers(q, rows, b, limit)
    requires k < |p| && k <= |q| && forall i :: 0 <= i < k ==> p[i] == q[i]
    ensures k < |q| && p[k].time <= q[k].time
  {
    var r := RowOfPoint(p[k], rows, b);
    hide IsMeanOf, BucketStart, AfterEpoch;
    if Shown(q, p[k].time) {
      var j :| 0 <= j < |q| && q[j].time == p[k].time;
      assert j >= k;
    } else {
      assert |q| == limit;
      assert rows[r].time < q[k].time;
    }
  }

  lemma RowOfPoint(p: Point, rows: seq<Sample>, b: nat) returns (r: nat)
    requires b > 0 && AfterEpoch(rows) && IsMeanOf(p, rows, b)
    ensures r < |rows| && rows[r].time >= 0 && BucketStart(rows[r].time, b) == p.time && p.time <= rows[r].time
  {
    r := RowInBucket(rows, p.time, b);
    BucketStarts(rows[r].time, rows[r].time, b);
  }

  lemma {:induction false} RowInBucket(rows: seq<Sample>, start: nat, b: nat) returns (r: nat)
    requires b > 0 && AfterEpoch(rows) && InBucket(rows, start, b) != []
    ensures r < |rows| && BucketStart(rows[r].time, b) == start
    decreases |rows|
  {
    hide BucketStart;
    AfterEpochPrefix(rows);
    r := |rows| - 1;
    if BucketStart(rows[r].time, b) == start {
    } else {
      r := RowInBucket(rows[..r], start, b);
    }
  }

  lemma OneMean(p: Point, q: Point, rows: seq<Sample>, b: nat)
    requires b > 0 && AfterEpoch(rows) && IsMeanOf(p, rows, b) && IsMeanOf(q, rows, b) && p.time == q.time
    ensures p == q
  {
    var own := InBucket(rows, p.time, b);
    var total := Total(own);
    assert |own| >= 1;
    hide InBucket, Total, Least, Greatest;
    CancelFactor(p.value, q.value, |own| as real, total);
  }

  lemma CancelFactor(x: real, y: real, n: real, total: real)
    requires n > 0.0 && x * n == total && y * n == total
    ensures x == y
  {
    assert x == total / n && y == total / n;
  }
}
