/** The analyzer object: it owns the label catalog and turns one decoded
    recording into the ordered list of detection records, by windowing the
    signal, classifying each window and keeping the classes that reach the
    confidence threshold. */
module Analyzer {
  import opened Labels
  import opened Windowing
  import opened Detections

  /** Target sample rate the recording is decoded at, in samples per second. */
  const SampleRate: nat := 32000

  /** Window length in samples: five seconds at the target sample rate. */
  const ChunkSamples: nat := 5 * SampleRate

  /** What the search for a label file produced: the `ebird2021` column of a
      readable file, no file at all, or a read that failed. */
  datatype LabelSource = Column(entries: seq<string>) | NoLabelFile | LabelReadError

  /** The outcome of decoding a recording to a mono signal at the target rate. */
  datatype Audio = Decoded(samples: Signal) | DecodeError

  /** The records the analyzer produces for a decoded signal. */
  function Analysis(sig: Signal, chunk: nat, step: nat, rate: nat, infer: Signal -> seq<real>,
                    labels: seq<string>, minConf: real): seq<Detection>
    requires step > 0 && rate > 0
  {
    var (chunks, spans) := Windows(sig, chunk, step, rate);
    WindowsShape(sig, chunk, step, rate);
    Records(Scores(infer, chunks), spans, labels, minConf)
  }

  /** Records come in time order: a later record never starts or ends before an
      earlier one. */
  lemma AnalysisInTimeOrder(sig: Signal, chunk: nat, step: nat, rate: nat, infer: Signal -> seq<real>,
                            labels: seq<string>, minConf: real, a: nat, b: nat)
    requires step > 0 && rate > 0
    requires a <= b < |Analysis(sig, chunk, step, rate, infer, labels, minConf)|
    ensures var rs := Analysis(sig, chunk, step, rate, infer, labels, minConf);
            rs[a].startTime <= rs[b].startTime && rs[a].endTime <= rs[b].endTime
  {
    var (chunks, spans) := Windows(sig, chunk, step, rate);
    var probs := Scores(infer, chunks);
    var hs := Hits(probs, minConf);
    RecordsSound(probs, spans, labels, minConf, a);
    RecordsSound(probs, spans, labels, minConf, b);
    if a < b {
      HitsUpToSorted(probs, minConf, |probs|);
      assert Before(hs[a], hs[b]);
      if hs[a].window < hs[b].window {
        WindowsInTimeOrder(sig, chunk, step, rate, hs[a].window, hs[b].window);
      }
    }
  }

  /** Every record belongs to one window `w`, returned with its class `idx`:
      its bounds are `(w * step / rate, (w * step + chunk) / rate)`, its
      confidence is the classifier's probability for class `idx` on the samples
      `[w * step, w * step + chunk)` of the padded signal and reaches the
      threshold, and its name is that class's label. */
  lemma AnalysisRecordsFromWindows(sig: Signal, chunk: nat, step: nat, rate: nat, infer: Signal -> seq<real>,
                                   labels: seq<string>, minConf: real, k: nat)
    returns (w: nat, idx: nat)
    requires step > 0 && rate > 0
    requires k < |Analysis(sig, chunk, step, rate, infer, labels, minConf)|
    ensures w * step + chunk <= |Padded(sig, chunk)|
    ensures var window := Padded(sig, chunk)[w * step..w * step + chunk];
            var r := Analysis(sig, chunk, step, rate, infer, labels, minConf)[k];
            idx < |infer(window)| &&
            r == Detection(LabelFor(labels, idx), infer(window)[idx],
                           SpanAt(w * step, chunk, rate).start, SpanAt(w * step, chunk, rate).end,
                           LabelFor(labels, idx)) &&
            r.confidence >= minConf
  {
    var (chunks, spans) := Windows(sig, chunk, step, rate);
    var probs := Scores(infer, chunks);
    RecordsSound(probs, spans, labels, minConf, k);
    var h := Hits(probs, minConf)[k];
    w, idx := h.window, h.index;
    WindowAt(sig, chunk, step, rate, w);
  }

  /** Every class of every window whose probability reaches the threshold is
      reported: a record with that window's bounds, that probability and that
      class's label is in the output. */
  lemma AnalysisComplete(sig: Signal, chunk: nat, step: nat, rate: nat, infer: Signal -> seq<real>,
                         labels: seq<string>, minConf: real, w: nat, idx: nat)
    requires step > 0 && rate > 0
    requires w * step + chunk <= |Padded(sig, chunk)|
    requires idx < |infer(Padded(sig, chunk)[w * step..w * step + chunk])|
    requires infer(Padded(sig, chunk)[w * step..w * step + chunk])[idx] >= minConf
    ensures var chunkSamples := Padded(sig, chunk)[w * step..w * step + chunk];
            Detection(LabelFor(labels, idx), infer(chunkSamples)[idx],
                      SpanAt(w * step, chunk, rate).start, SpanAt(w * step, chunk, rate).end,
                      LabelFor(labels, idx))
            in Analysis(sig, chunk, step, rate, infer, labels, minConf)
  {
    var (chunks, spans) := Windows(sig, chunk, step, rate);
    WindowExists(sig, chunk, step, rate, w);
    WindowAt(sig, chunk, step, rate, w);
    var probs := Scores(infer, chunks);
    RecordsComplete(probs, spans, labels, minConf, w, idx);
  }

  class PerchAnalyzer {
    /** The label catalog, indexed by classifier output channel. */
    var labels: seq<string>
    const sampleRate: nat := SampleRate
    const chunkSamples: nat := ChunkSamples

    /** Sets up the analyzer and loads its label catalog. */
    constructor (source: LabelSource)
      ensures labels == if source.Column? then source.entries else FallbackCatalog()
    {
      labels := [];
      new;
      LoadLabels(source);
    }

    /** Uses the label file's column when one was read, and otherwise, whether no
        file was found or reading it failed, the synthetic catalog of decimal
        indices. */
    method LoadLabels(source: LabelSource)
      modifies this`labels
      ensures labels == if source.Column? then source.entries else FallbackCatalog()
    {
      match source
      case Column(entries) =>
        labels := entries;
      case NoLabelFile =>
        labels := FallbackCatalog();
      case LabelReadError =>
        labels := FallbackCatalog();
    }

    /** Analyzes one recording: no records when it cannot be decoded, otherwise
        the records of its windows at stride `stepSamples`. */
    method Analyze(audio: Audio, infer: Signal -> seq<real>, minConf: real, stepSamples: nat)
      returns (results: seq<Detection>)
      requires stepSamples > 0
      ensures audio.DecodeError? ==> results == []
      ensures audio.Decoded? ==>
                results == Analysis(audio.samples, chunkSamples, stepSamples, sampleRate, infer, labels, minConf)
      ensures forall r :: r in results ==> r.confidence >= minConf && r.commonName == r.labelName
    {
      if audio.DecodeError? {
        return [];
      }
      var chunks, timestamps := Segment(audio.samples, chunkSamples, stepSamples, sampleRate);
      // The source returns early when no chunk was cut; after padding that cannot happen.
      assert |chunks| > 0;
      results := Decode(chunks, timestamps, infer, labels, minConf);
    }
  }
}
