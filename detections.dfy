/** The decoding step of the analyzer: for each window in order, the classes
    whose probability reaches the threshold, in increasing class order, each
    become one detection record carrying the window's time bounds and the
    class's label. */
module Detections {
  import opened Labels
  import opened Windowing

  /** One row of the analyzer's output. `commonName` and `labelName` both hold the
      catalog label. */
  datatype Detection = Detection(commonName: string, confidence: real, startTime: real, endTime: real, labelName: string)

  /** The classifier's per-class probabilities for each window, in window order. */
  function Scores(infer: Signal -> seq<real>, chunks: seq<Signal>): seq<seq<real>>
  {
    seq(|chunks|, i requires 0 <= i < |chunks| => infer(chunks[i]))
  }

  /** The positions below `n` whose probability is at least `minConf`, in
      increasing order. */
  function IndicesBelow(row: seq<real>, minConf: real, n: nat): (idxs: seq<nat>)
    requires n <= |row|
    ensures forall k :: 0 <= k < |idxs| ==> idxs[k] < n && row[idxs[k]] >= minConf
    ensures forall i :: 0 <= i < n && row[i] >= minConf ==> i in idxs
    ensures StrictlyIncreasing(idxs)
    decreases n
  {
    if n == 0 then []
    else IndicesBelow(row, minConf, n - 1) + (if row[n - 1] >= minConf then [n - 1] else [])
  }

  /** The class indices whose probability reaches the threshold (inclusive), in
      increasing order: the indices `np.where(probs >= min_conf)` yields. */
  function IndicesAtLeast(row: seq<real>, minConf: real): (idxs: seq<nat>)
    ensures forall k :: 0 <= k < |idxs| ==> idxs[k] < |row| && row[idxs[k]] >= minConf
    ensures forall i :: 0 <= i < |row| ==> (i in idxs <==> row[i] >= minConf)
    ensures StrictlyIncreasing(idxs)
  {
    IndicesBelow(row, minConf, |row|)
  }

  /** The records of one window: for each surviving class index, in order, its
      label, its probability and the window's bounds. */
  function WindowRecords(row: seq<real>, span: Span, labels: seq<string>, idxs: seq<nat>): seq<Detection>
    requires forall k :: 0 <= k < |idxs| ==> idxs[k] < |row|
  {
    seq(|idxs|, k requires 0 <= k < |idxs| =>
      Detection(LabelFor(labels, idxs[k]), row[idxs[k]], span.start, span.end, LabelFor(labels, idxs[k])))
  }

  lemma WindowRecordsSnoc(row: seq<real>, span: Span, labels: seq<string>, idxs: seq<nat>, k: nat)
    requires k < |idxs| && forall j :: 0 <= j < |idxs| ==> idxs[j] < |row|
    ensures WindowRecords(row, span, labels, idxs[..k + 1])
            == WindowRecords(row, span, labels, idxs[..k])
               + [Detection(LabelFor(labels, idxs[k]), row[idxs[k]], span.start, span.end, LabelFor(labels, idxs[k]))]
  {
  }

  /** The records of the first `w` windows, window after window. */
  function RecordsUpTo(probs: seq<seq<real>>, spans: seq<Span>, labels: seq<string>, minConf: real, w: nat): seq<Detection>
    requires w <= |probs| && w <= |spans|
    decreases w
  {
    if w == 0 then []
    else RecordsUpTo(probs, spans, labels, minConf, w - 1)
         + WindowRecords(probs[w - 1], spans[w - 1], labels, IndicesAtLeast(probs[w - 1], minConf))
  }

  /** The analyzer's output for given per-window probabilities and window bounds. */
  function Records(probs: seq<seq<real>>, spans: seq<Span>, labels: seq<string>, minConf: real): seq<Detection>
    requires |probs| == |spans|
  {
    RecordsUpTo(probs, spans, labels, minConf, |probs|)
  }

  // A reference description of the same output: the list of surviving
  // (window, class) pairs in lexicographic order, one record per pair.

  /** A (window, class) pair. */
  datatype Hit = Hit(window: nat, index: nat)

  function RowHits(w: nat, idxs: seq<nat>): seq<Hit> {
    seq(|idxs|, k requires 0 <= k < |idxs| => Hit(w, idxs[k]))
  }

  predicate HitIn(h: Hit, probs: seq<seq<real>>) {
    h.window < |probs| && h.index < |probs[h.window]|
  }

  /** The surviving pairs of the first `w` windows, window by window and, inside
      a window, by class index. */
  function HitsUpTo(probs: seq<seq<real>>, minConf: real, w: nat): (hs: seq<Hit>)
    requires w <= |probs|
    ensures forall k :: 0 <= k < |hs| ==>
              hs[k].window < w && HitIn(hs[k], probs) && probs[hs[k].window][hs[k].index] >= minConf
    decreases w
  {
    if w == 0 then []
    else HitsUpTo(probs, minConf, w - 1) + RowHits(w - 1, IndicesAtLeast(probs[w - 1], minConf))
  }

  function Hits(probs: seq<seq<real>>, minConf: real): seq<Hit> {
    HitsUpTo(probs, minConf, |probs|)
  }

  /** Lexicographic order on (window, class index). */
  predicate Before(a: Hit, b: Hit) {
    a.window < b.window || (a.window == b.window && a.index < b.index)
  }

  predicate SortedHits(hs: seq<Hit>) {
    forall a, b :: 0 <= a < b < |hs| ==> Before(hs[a], hs[b])
  }

  lemma RowHitsFacts(w: nat, idxs: seq<nat>)
    ensures forall h :: h in RowHits(w, idxs) <==> h.window == w && h.index in idxs
    ensures StrictlyIncreasing(idxs) ==> SortedHits(RowHits(w, idxs))
  {
    var row := RowHits(w, idxs);
    forall h: Hit | h.window == w && h.index in idxs ensures h in row {
      var k :| 0 <= k < |idxs| && idxs[k] == h.index;
      assert row[k] == h;
    }
  }

  /** The surviving pairs are exactly the (window, class) pairs whose probability
      is at least the threshold, a probability equal to it included. */
  lemma {:induction false} HitsUpToExact(probs: seq<seq<real>>, minConf: real, w: nat)
    requires w <= |probs|
    ensures forall h :: h in HitsUpTo(probs, minConf, w) <==>
              h.window < w && HitIn(h, probs) && probs[h.window][h.index] >= minConf
    decreases w
  {
    if w > 0 {
      HitsUpToExact(probs, minConf, w - 1);
      RowHitsFacts(w - 1, IndicesAtLeast(probs[w - 1], minConf));
    }
  }

  /** The surviving pairs come in strictly increasing (window, class) order. */
  lemma {:induction false} HitsUpToSorted(probs: seq<seq<real>>, minConf: real, w: nat)
    requires w <= |probs|
    ensures SortedHits(HitsUpTo(probs, minConf, w))
    decreases w
  {
    if w > 0 {
      HitsUpToSorted(probs, minConf, w - 1);
      var prev := HitsUpTo(probs, minConf, w - 1);
      var row := RowHits(w - 1, IndicesAtLeast(probs[w - 1], minConf));
      RowHitsFacts(w - 1, IndicesAtLeast(probs[w - 1], minConf));
      var hs := prev + row;
      forall a, b | 0 <= a < b < |hs| ensures Before(hs[a], hs[b]) {
        if b < |prev| {
          assert Before(prev[a], prev[b]);
        } else if a < |prev| {
          assert hs[a].window < w - 1 && hs[b] == row[b - |prev|];
        } else {
          assert Before(row[a - |prev|], row[b - |prev|]);
        }
      }
    }
  }

  /** Each qualifying (window, class) pair is found at exactly one position. */
  lemma HitsOnce(probs: seq<seq<real>>, minConf: real, h: Hit)
    requires HitIn(h, probs) && probs[h.window][h.index] >= minConf
    ensures exists k :: 0 <= k < |Hits(probs, minConf)| && Hits(probs, minConf)[k] == h
    ensures forall a, b :: 0 <= a < b < |Hits(probs, minConf)| ==>
              Hits(probs, minConf)[a] != h || Hits(probs, minConf)[b] != h
  {
    var hs := Hits(probs, minConf);
    HitsUpToExact(probs, minConf, |probs|);
    HitsUpToSorted(probs, minConf, |probs|);
    assert h in hs;
  }

  /** The record for a surviving pair: its probability, its window's bounds and
      its class's label. */
  function ToRecord(h: Hit, probs: seq<seq<real>>, spans: seq<Span>, labels: seq<string>): Detection
    requires HitIn(h, probs) && h.window < |spans|
  {
    var name := LabelFor(labels, h.index);
    Detection(name, probs[h.window][h.index], spans[h.window].start, spans[h.window].end, name)
  }

  predicate HitsIn(hs: seq<Hit>, probs: seq<seq<real>>, spans: seq<Span>) {
    forall k :: 0 <= k < |hs| ==> HitIn(hs[k], probs) && hs[k].window < |spans|
  }

  function RecordsOf(hs: seq<Hit>, probs: seq<seq<real>>, spans: seq<Span>, labels: seq<string>): seq<Detection>
    requires HitsIn(hs, probs, spans)
  {
    seq(|hs|, k requires 0 <= k < |hs| => ToRecord(hs[k], probs, spans, labels))
  }

  lemma RecordsOfAppend(hs1: seq<Hit>, hs2: seq<Hit>, probs: seq<seq<real>>, spans: seq<Span>, labels: seq<string>)
    requires HitsIn(hs1, probs, spans) && HitsIn(hs2, probs, spans)
    ensures HitsIn(hs1 + hs2, probs, spans)
    ensures RecordsOf(hs1 + hs2, probs, spans, labels) == RecordsOf(hs1, probs, spans, labels) + RecordsOf(hs2, probs, spans, labels)
  {
    assert HitsIn(hs1 + hs2, probs, spans);
  }

  lemma RowRecords(w: nat, idxs: seq<nat>, probs: seq<seq<real>>, spans: seq<Span>, labels: seq<string>)
    requires w < |probs| && w < |spans| && forall k :: 0 <= k < |idxs| ==> idxs[k] < |probs[w]|
    ensures HitsIn(RowHits(w, idxs), probs, spans)
    ensures RecordsOf(RowHits(w, idxs), probs, spans, labels) == WindowRecords(probs[w], spans[w], labels, idxs)
  {
  }

  /** The window-by-window output is the reference one: record `k` is the record
      of the `k`-th surviving (window, class) pair. */
  lemma {:induction false} RecordsMatchHits(probs: seq<seq<real>>, spans: seq<Span>, labels: seq<string>, minConf: real, w: nat)
    requires w <= |probs| == |spans|
    ensures HitsIn(HitsUpTo(probs, minConf, w), probs, spans)
    ensures RecordsUpTo(probs, spans, labels, minConf, w) == RecordsOf(HitsUpTo(probs, minConf, w), probs, spans, labels)
    decreases w
  {
    if w > 0 {
      RecordsMatchHits(probs, spans, labels, minConf, w - 1);
      var idxs := IndicesAtLeast(probs[w - 1], minConf);
      RowRecords(w - 1, idxs, probs, spans, labels);
      RecordsOfAppend(HitsUpTo(probs, minConf, w - 1), RowHits(w - 1, idxs), probs, spans, labels);
    }
  }

  /** Record `k` of the output stems from the `k`-th surviving pair: it reaches
      the threshold, repeats its window's bounds, and its name is the catalog
      label of its class (or the class's decimal index beyond the catalog), in
      both name fields. */
  lemma RecordsSound(probs: seq<seq<real>>, spans: seq<Span>, labels: seq<string>, minConf: real, k: nat)
    requires |probs| == |spans| && k < |Records(probs, spans, labels, minConf)|
    ensures k < |Hits(probs, minConf)|
    ensures var r := Records(probs, spans, labels, minConf)[k];
            var h := Hits(probs, minConf)[k];
            HitIn(h, probs) &&
            r.confidence == probs[h.window][h.index] && r.confidence >= minConf &&
            r.startTime == spans[h.window].start && r.endTime == spans[h.window].end &&
            r.labelName == LabelFor(labels, h.index) && r.commonName == r.labelName
  {
    RecordsMatchHits(probs, spans, labels, minConf, |probs|);
  }

  /** No record falls below the threshold, and both name fields of every record
      carry the same label. */
  lemma RecordsAboveThreshold(probs: seq<seq<real>>, spans: seq<Span>, labels: seq<string>, minConf: real)
    requires |probs| == |spans|
    ensures forall r :: r in Records(probs, spans, labels, minConf) ==>
              r.confidence >= minConf && r.commonName == r.labelName
  {
    var rs := Records(probs, spans, labels, minConf);
    forall r | r in rs ensures r.confidence >= minConf && r.commonName == r.labelName {
      var k :| 0 <= k < |rs| && rs[k] == r;
      RecordsSound(probs, spans, labels, minConf, k);
    }
  }

  /** Nothing that reaches the threshold is lost: every (window, class) pair
      whose probability is at least `minConf`, equality included, has its record
      in the output. */
  lemma RecordsComplete(probs: seq<seq<real>>, spans: seq<Span>, labels: seq<string>, minConf: real, w: nat, i: nat)
    requires |probs| == |spans| && w < |probs| && i < |probs[w]| && probs[w][i] >= minConf
    ensures ToRecord(Hit(w, i), probs, spans, labels) in Records(probs, spans, labels, minConf)
  {
    var hs := Hits(probs, minConf);
    RecordsMatchHits(probs, spans, labels, minConf, |probs|);
    HitsUpToExact(probs, minConf, |probs|);
    assert Hit(w, i) in hs;
    var k :| 0 <= k < |hs| && hs[k] == Hit(w, i);
    assert Records(probs, spans, labels, minConf)[k] == ToRecord(Hit(w, i), probs, spans, labels);
  }

  /** Appends the records of one window to `results`: one per class index whose
      probability reaches `minConf`, in increasing index order, each carrying
      the window's bounds. */
  method AppendWindow(results: seq<Detection>, row: seq<real>, span: Span, labels: seq<string>, minConf: real)
    returns (extended: seq<Detection>)
    ensures extended == results + WindowRecords(row, span, labels, IndicesAtLeast(row, minConf))
    ensures forall r :: r in extended[|results|..] ==>
              r.confidence >= minConf && r.startTime == span.start && r.endTime == span.end
  {
    var indices := IndicesAtLeast(row, minConf);
    extended := results;
    for k := 0 to |indices|
      invariant extended == results + WindowRecords(row, span, labels, indices[..k])
    {
      var idx := indices[k];
      var conf := row[idx];
      var name := LabelFor(labels, idx);
      WindowRecordsSnoc(row, span, labels, indices, k);
      extended := extended + [Detection(name, conf, span.start, span.end, name)];
    }
    assert indices[..|indices|] == indices;
  }

  /** Runs the classifier on each window in order and appends the window's
      records, so that the output is ordered by window and, inside a window, by
      class index. */
  method Decode(chunks: seq<Signal>, timestamps: seq<Span>, infer: Signal -> seq<real>,
                labels: seq<string>, minConf: real) returns (results: seq<Detection>)
    requires |chunks| == |timestamps|
    ensures results == Records(Scores(infer, chunks), timestamps, labels, minConf)
    ensures forall r :: r in results ==> r.confidence >= minConf && r.commonName == r.labelName
  {
    ghost var probs := Scores(infer, chunks);
    results := [];
    for i := 0 to |chunks|
      invariant results == RecordsUpTo(probs, timestamps, labels, minConf, i)
    {
      var row := infer(chunks[i]);
      results := AppendWindow(results, row, timestamps[i], labels, minConf);
    }
    RecordsAboveThreshold(probs, timestamps, labels, minConf);
  }
}
