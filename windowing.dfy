/** The windowing step of the analyzer: pad a short signal with silence, cut it
    into fixed-length chunks at a fixed stride, and record each chunk's time
    bounds in seconds. Samples are reals; positions are sample indices. */
module Windowing {

  type Signal = seq<real>

  /** Time bounds of one window, in seconds from the start of the file. */
  datatype Span = Span(start: real, end: real)

  /** The signal right-padded with zeros up to `chunk` samples when it is
      shorter; a signal of at least `chunk` samples is left as it is. */
  function Padded(sig: Signal, chunk: nat): (p: Signal)
    ensures chunk <= |p| && |sig| <= |p|
    ensures p[..|sig|] == sig
    ensures forall i :: |sig| <= i < |p| ==> p[i] == 0.0
    ensures |sig| < chunk ==> |p| == chunk
    ensures chunk <= |sig| ==> p == sig
  {
    if |sig| < chunk then sig + seq(chunk - |sig|, _ => 0.0) else sig
  }

  /** The values of Python's `range(lo, stop, step)` for a positive step. */
  function PyRange(lo: nat, stop: int, step: nat): seq<nat>
    requires step > 0
    decreases stop - lo
  {
    if lo < stop then [lo] + PyRange(lo + step, stop, step) else []
  }

  /** Chunk start indices for a signal of `n` samples:
      `range(0, n - chunk + 1, step)`. */
  function Starts(n: nat, chunk: nat, step: nat): seq<nat>
    requires step > 0
  {
    PyRange(0, n - chunk + 1, step)
  }

  /** Number of windows the count formula predicts for `n` samples. */
  function WindowCount(n: nat, chunk: nat, step: nat): nat
    requires step > 0
  {
    if n < chunk then 0 else (n - chunk) / step + 1
  }

  lemma {:induction false} MulGap(a: int, b: int, d: int)
    requires a < b && d > 0
    ensures a * d + d <= b * d
    decreases b - a
  {
    if a + 1 < b {
      MulGap(a + 1, b, d);
    }
    assert (a + 1) * d == a * d + d;
  }

  lemma DivUnique(x: int, d: int, q: int, r: int)
    requires d > 0 && 0 <= r < d && x == q * d + r
    ensures x / d == q
  {
    var q' := x / d;
    if q' < q {
      MulGap(q', q, d);
    } else if q < q' {
      MulGap(q, q', d);
    }
  }

  lemma RealDivLess(a: real, b: real, r: real)
    requires 0.0 < r && a < b
    ensures a / r < b / r
  {
    assert b / r - a / r == (b - a) / r;
  }

  /** `range(lo, stop, step)` holds `lo, lo + step, lo + 2*step, …` below `stop`,
      and that many of them. */
  lemma {:induction false} PyRangeShape(lo: nat, stop: int, step: nat)
    requires step > 0
    ensures |PyRange(lo, stop, step)| == if lo < stop then (stop - lo - 1) / step + 1 else 0
    ensures forall k :: 0 <= k < |PyRange(lo, stop, step)| ==> PyRange(lo, stop, step)[k] == lo + k * step
    decreases stop - lo
  {
    if lo < stop {
      var r := PyRange(lo, stop, step);
      var rest := PyRange(lo + step, stop, step);
      PyRangeShape(lo + step, stop, step);
      var x := stop - lo - 1;
      if lo + step < stop {
        DivUnique(x, step, (x - step) / step + 1, (x - step) % step);
      } else {
        DivUnique(x, step, 0, x);
      }
      forall k | 0 <= k < |r| ensures r[k] == lo + k * step {
        if k > 0 {
          assert r[k] == rest[k - 1];
          assert (k - 1) * step + step == k * step;
        }
      }
    }
  }

  /** There are `WindowCount(n, chunk, step)` chunk starts, and the k-th one is
      `k * step`. */
  lemma StartsShape(n: nat, chunk: nat, step: nat)
    requires step > 0
    ensures |Starts(n, chunk, step)| == WindowCount(n, chunk, step)
    ensures forall k :: 0 <= k < |Starts(n, chunk, step)| ==> Starts(n, chunk, step)[k] == k * step
  {
    PyRangeShape(0, n - chunk + 1, step);
  }

  /** A start fits when a whole chunk begins there: `k * step + chunk <= n` holds
      exactly for the indices `k` the range produces. */
  lemma StartsFitExactly(n: nat, chunk: nat, step: nat, k: nat)
    requires step > 0
    ensures k < |Starts(n, chunk, step)| <==> k * step + chunk <= n
  {
    StartsShape(n, chunk, step);
    if chunk <= n {
      var x := n - chunk;
      DivUnique(x, step, x / step, x % step);
      if k <= x / step {
        assert k * step <= (x / step) * step;
      } else {
        assert k * step >= (x / step + 1) * step;
      }
    }
  }

  /** The chunk starts are exactly the non-negative multiples of `step` at which
      a whole chunk fits, in increasing order. */
  lemma StartsAreFittingMultiples(n: nat, chunk: nat, step: nat, s: int)
    requires step > 0
    ensures s in Starts(n, chunk, step) <==> 0 <= s && s % step == 0 && s + chunk <= n
  {
    var st := Starts(n, chunk, step);
    StartsShape(n, chunk, step);
    if s in st {
      var k :| 0 <= k < |st| && st[k] == s;
      StartsFitExactly(n, chunk, step, k);
      DivUnique(s, step, k, 0);
    }
    if 0 <= s && s % step == 0 && s + chunk <= n {
      var k := s / step;
      DivUnique(s, step, k, 0);
      StartsFitExactly(n, chunk, step, k);
      assert st[k] == s;
    }
  }

  predicate StartsFit(starts: seq<nat>, chunk: nat, n: nat) {
    forall i :: 0 <= i < |starts| ==> starts[i] + chunk <= n
  }

  /** Each element is smaller than every later one. */
  predicate StrictlyIncreasing(xs: seq<nat>) {
    forall i, j :: 0 <= i < j < |xs| ==> xs[i] < xs[j]
  }

  /** Every chunk start lies at or before `n - chunk`, and they increase strictly. */
  lemma StartsInRange(n: nat, chunk: nat, step: nat)
    requires step > 0
    ensures StartsFit(Starts(n, chunk, step), chunk, n)
    ensures StrictlyIncreasing(Starts(n, chunk, step))
  {
    var st := Starts(n, chunk, step);
    StartsShape(n, chunk, step);
    forall i | 0 <= i < |st| ensures st[i] + chunk <= n {
      StartsFitExactly(n, chunk, step, i);
    }
    forall i, j | 0 <= i < j < |st| ensures st[i] < st[j] {
      assert j * step - i * step == (j - i) * step;
    }
  }

  /** The samples `sig[s .. s + chunk]` for each start `s`. */
  function ChunksAt(sig: Signal, chunk: nat, starts: seq<nat>): seq<Signal>
    requires StartsFit(starts, chunk, |sig|)
  {
    seq(|starts|, i requires 0 <= i < |starts| => sig[starts[i]..starts[i] + chunk])
  }

  /** The bounds `(s / rate, (s + chunk) / rate)` of the window starting at sample `s`. */
  function SpanAt(s: nat, chunk: nat, rate: nat): Span
    requires rate > 0
  {
    Span(s as real / rate as real, (s + chunk) as real / rate as real)
  }

  function SpansAt(starts: seq<nat>, chunk: nat, rate: nat): seq<Span>
    requires rate > 0
  {
    seq(|starts|, i requires 0 <= i < |starts| => SpanAt(starts[i], chunk, rate))
  }

  /** The chunks and the time bounds the analyzer derives from a decoded signal:
      pad, then one window per start of `range(0, len - chunk + 1, step)`. */
  function Windows(sig: Signal, chunk: nat, step: nat, rate: nat): (seq<Signal>, seq<Span>)
    requires step > 0 && rate > 0
  {
    var p := Padded(sig, chunk);
    var starts := Starts(|p|, chunk, step);
    StartsInRange(|p|, chunk, step);
    (ChunksAt(p, chunk, starts), SpansAt(starts, chunk, rate))
  }

  lemma ChunksAtSnoc(sig: Signal, chunk: nat, starts: seq<nat>, s: nat)
    requires StartsFit(starts, chunk, |sig|) && s + chunk <= |sig|
    ensures StartsFit(starts + [s], chunk, |sig|)
    ensures ChunksAt(sig, chunk, starts + [s]) == ChunksAt(sig, chunk, starts) + [sig[s..s + chunk]]
  {
    assert StartsFit(starts + [s], chunk, |sig|);
  }

  lemma SpansAtSnoc(starts: seq<nat>, chunk: nat, rate: nat, s: nat)
    requires rate > 0
    ensures SpansAt(starts + [s], chunk, rate) == SpansAt(starts, chunk, rate) + [SpanAt(s, chunk, rate)]
  {
  }

  /** The window list of any signal: after padding there are
      `(len - chunk) / step + 1` windows (so at least one), window `i` is the
      `chunk` samples from `i * step` on, which lie inside the padded signal,
      and its bounds are those of sample `i * step`. */
  lemma WindowsShape(sig: Signal, chunk: nat, step: nat, rate: nat)
    requires step > 0 && rate > 0
    ensures |Windows(sig, chunk, step, rate).0| == |Windows(sig, chunk, step, rate).1|
              == (|Padded(sig, chunk)| - chunk) / step + 1
    ensures forall i :: 0 <= i < |Windows(sig, chunk, step, rate).0| ==>
              i * step + chunk <= |Padded(sig, chunk)| &&
              Windows(sig, chunk, step, rate).0[i] == Padded(sig, chunk)[i * step..i * step + chunk] &&
              |Windows(sig, chunk, step, rate).0[i]| == chunk
    ensures forall i :: 0 <= i < |Windows(sig, chunk, step, rate).1| ==>
              Windows(sig, chunk, step, rate).1[i] == SpanAt(i * step, chunk, rate)
  {
    var p := Padded(sig, chunk);
    var st := Starts(|p|, chunk, step);
    StartsShape(|p|, chunk, step);
    StartsInRange(|p|, chunk, step);
    var chunks := ChunksAt(p, chunk, st);
    var spans := SpansAt(st, chunk, rate);
    assert Windows(sig, chunk, step, rate) == (chunks, spans);
    forall i | 0 <= i < |chunks|
      ensures i * step + chunk <= |p| && chunks[i] == p[i * step..i * step + chunk] && |chunks[i]| == chunk
    {
      assert st[i] == i * step;
    }
    forall i | 0 <= i < |spans| ensures spans[i] == SpanAt(i * step, chunk, rate) {
      assert st[i] == i * step;
    }
  }

  /** Window `w` of a signal, when there is one: the `chunk` samples of the
      padded signal from `w * step` on, with the bounds of sample `w * step`. */
  lemma WindowAt(sig: Signal, chunk: nat, step: nat, rate: nat, w: nat)
    requires step > 0 && rate > 0
    requires w < |Windows(sig, chunk, step, rate).0|
    ensures w * step + chunk <= |Padded(sig, chunk)|
    ensures Windows(sig, chunk, step, rate).0[w] == Padded(sig, chunk)[w * step..w * step + chunk]
    ensures |Windows(sig, chunk, step, rate).1| == |Windows(sig, chunk, step, rate).0|
    ensures Windows(sig, chunk, step, rate).1[w] == SpanAt(w * step, chunk, rate)
  {
    WindowsShape(sig, chunk, step, rate);
  }

  /** Every start `w * step` at which a whole chunk fits in the padded signal
      has its window. */
  lemma WindowExists(sig: Signal, chunk: nat, step: nat, rate: nat, w: nat)
    requires step > 0 && rate > 0
    requires w * step + chunk <= |Padded(sig, chunk)|
    ensures w < |Windows(sig, chunk, step, rate).0|
  {
    StartsFitExactly(|Padded(sig, chunk)|, chunk, step, w);
  }

  /** Pads the signal and slices it into windows, recording each window's time
      bounds; the loop walks `range(0, len(sig) - chunk + 1, step)`. */
  method Segment(sig: Signal, chunk: nat, step: nat, rate: nat) returns (chunks: seq<Signal>, timestamps: seq<Span>)
    requires step > 0 && rate > 0
    ensures (chunks, timestamps) == Windows(sig, chunk, step, rate)
    ensures |chunks| == |timestamps| == (|Padded(sig, chunk)| - chunk) / step + 1
    ensures forall i :: 0 <= i < |chunks| ==> |chunks[i]| == chunk
    ensures forall i :: 0 <= i < |timestamps| ==> timestamps[i] == SpanAt(i * step, chunk, rate)
  {
    var p := sig;
    if |p| < chunk {
      p := p + seq(chunk - |p|, _ => 0.0);
    }
    assert p == Padded(sig, chunk);
    chunks, timestamps := [], [];
    var stop := |p| - chunk + 1;
    var start: nat := 0;
    ghost var done: seq<nat> := [];
    while start < stop
      invariant done + PyRange(start, stop, step) == PyRange(0, stop, step)
      invariant StartsFit(done, chunk, |p|)
      invariant chunks == ChunksAt(p, chunk, done)
      invariant timestamps == SpansAt(done, chunk, rate)
      decreases stop - start
    {
      var end := start + chunk;
      ChunksAtSnoc(p, chunk, done, start);
      SpansAtSnoc(done, chunk, rate, start);
      chunks := chunks + [p[start..end]];
      timestamps := timestamps + [Span(start as real / rate as real, end as real / rate as real)];
      assert done + PyRange(start, stop, step) == (done + [start]) + PyRange(start + step, stop, step);
      done := done + [start];
      start := start + step;
    }
    assert done == Starts(|p|, chunk, step);
    WindowsShape(sig, chunk, step, rate);
  }

  lemma SpanAtOrdered(s1: nat, s2: nat, chunk: nat, rate: nat)
    requires rate > 0 && s1 < s2
    ensures SpanAt(s1, chunk, rate).start < SpanAt(s2, chunk, rate).start
    ensures SpanAt(s1, chunk, rate).end < SpanAt(s2, chunk, rate).end
  {
    var r := rate as real;
    RealDivLess(s1 as real, s2 as real, r);
    RealDivLess((s1 + chunk) as real, (s2 + chunk) as real, r);
  }

  lemma SpanAtDuration(s: nat, chunk: nat, rate: nat)
    requires rate > 0
    ensures SpanAt(s, chunk, rate).end - SpanAt(s, chunk, rate).start == chunk as real / rate as real
  {
    var r := rate as real;
    assert (s + chunk) as real == s as real + chunk as real;
    assert (s as real + chunk as real) / r == s as real / r + chunk as real / r;
  }

  /** Windows appear in time order: both bounds increase strictly from one window
      to the next, and every window lasts `chunk / rate` seconds. */
  lemma WindowsInTimeOrder(sig: Signal, chunk: nat, step: nat, rate: nat, i: nat, j: nat)
    requires step > 0 && rate > 0
    requires i < j < |Windows(sig, chunk, step, rate).1|
    ensures var spans := Windows(sig, chunk, step, rate).1;
            spans[i].start < spans[j].start && spans[i].end < spans[j].end &&
            spans[i].end - spans[i].start == chunk as real / rate as real
  {
    WindowAt(sig, chunk, step, rate, i);
    WindowAt(sig, chunk, step, rate, j);
    MulGap(i, j, step);
    SpanAtOrdered(i * step, j * step, chunk, rate);
    SpanAtDuration(i * step, chunk, rate);
  }

  /** A signal shorter than one window yields exactly one window, which is the
      signal followed by silence, spanning `0` to `chunk / rate` seconds. */
  lemma ShortSignalOneWindow(sig: Signal, chunk: nat, step: nat, rate: nat)
    requires step > 0 && rate > 0 && |sig| < chunk
    ensures var (chunks, spans) := Windows(sig, chunk, step, rate);
            |chunks| == 1 && chunks[0] == sig + seq(chunk - |sig|, _ => 0.0) &&
            spans == [Span(0.0, chunk as real / rate as real)]
  {
    StartsShape(chunk, chunk, step);
  }

  /** Two reference cases: a 160000-sample signal cut into 160000-sample windows
      at stride 160000 gives one window; a 320000-sample signal at stride 80000
      gives three. */
  lemma WindowCountExamples()
    ensures |Starts(160000, 160000, 160000)| == 1
    ensures Starts(320000, 160000, 80000) == [0, 80000, 160000]
  {
    StartsShape(160000, 160000, 160000);
    StartsShape(320000, 160000, 80000);
  }
}
