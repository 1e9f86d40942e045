# Perch analyzer: windowing and detection assembly

This project models the core of `PerchAnalyzer.analyze` from a bird-sound
analysis tool. `analyze` takes the path of an audio file and decodes it at
32000 samples per second. When decoding fails it returns `[]`. Otherwise it
turns the signal into an ordered list of detection records:

1. **Windowing.** A signal shorter than one window is right-padded with zeros
   up to `chunk_samples`. Windows of `chunk_samples` samples are then cut at the
   starts of `range(0, len(sig) - chunk_samples + 1, step_samples)`. A short tail
   is dropped. Each window records its bounds `(start / rate, end / rate)` in
   seconds.
2. **Decoding.** Windows are classified in order. For each window, every class
   index whose probability is at least `min_conf` gives one record, in
   increasing index order. A record holds the label, the probability and the
   window's bounds.
3. **Label catalog.** Labels come from a label file's `ebird2021` column. When
   no such file can be used, the catalog is `["0", …, "10999"]`. A class index
   beyond the catalog is labelled with its decimal text.

The Dafny modules follow these parts:

- `Labels` (`labels.dfy`): decimal text of an index, the fallback catalog, and
  the label lookup.
- `Windowing` (`windowing.dfy`): padding, Python's `range`, the chunk starts,
  and the windowing loop `Segment`.
- `Detections` (`detections.dfy`): threshold filtering, the record list, and the
  decoding loops `Decode` and `AppendWindow`. It also has a second description
  of the output: the sorted list of surviving (window, class) pairs. A lemma
  proves the two descriptions equal.
- `Analyzer` (`analyzer.dfy`): the class `PerchAnalyzer`, which owns the label
  catalog. Its `Analyze` method chains windowing and decoding. This module also
  holds the end-to-end lemmas.

Samples and probabilities are `real`. The classifier, including its sigmoid, is
a parameter `infer` that maps a window's samples to one probability per class.
Audio decoding is an input of type `Audio`: either the decoded samples or a
decode error. The label-file search is an input of type `LabelSource`.

## Model

| member | source | states |
|---|---|---|
| `Labels.NatToString` | perch_analyzer.py:52 | The text `str(i)` gives for an index: at least one character, all of them decimal digits, a leading `0` only for zero, and one digit exactly for indices below 10 |
| `Labels.ParseNatToString` | perch_analyzer.py:112 | Reading the decimal text of an index back gives the index |
| `Labels.CanonicalDecimalUnique` | perch_analyzer.py:112 | A canonical digit string that reads back as `n` is the decimal text of `n`: `str(n)` is the only such string |
| `Labels.NatToStringInjective` | perch_analyzer.py:112 | Two different indices never get the same decimal text |
| `Labels.FallbackCatalog` | perch_analyzer.py:52 | The fallback catalog has 11000 entries, and entry `i` is a canonical digit string (no leading zero unless it is one digit) that reads back as `i`; by `Labels.CanonicalDecimalUnique` that is exactly `str(i)` |
| `Labels.LabelFor` | perch_analyzer.py:112 | The label of an index inside the catalog is the catalog entry. Past the end of the catalog it is a canonical digit string (no leading zero unless it is one digit) that reads back as the index; by `Labels.CanonicalDecimalUnique` that is exactly `str(idx)` |
| `Labels.FallbackLabelIsIndex` | perch_analyzer.py:56 | With the fallback catalog, every index is labelled with its own decimal text, whether inside the catalog or past its end |
| `Labels.FallbackLabelsDistinct` | perch_analyzer.py:52 | With the fallback catalog, two indices share a label exactly when they are equal |
| `Windowing.Padded` | perch_analyzer.py:74-75 | The padded signal has at least `chunk` samples. The original samples are its prefix and every added sample is `0.0`. A short signal is padded to exactly `chunk` samples, and a long enough signal is unchanged |
| `Windowing.PyRangeShape` | perch_analyzer.py:80 | `range(lo, stop, step)` has `(stop - lo - 1) / step + 1` elements when `lo < stop` and none otherwise. Element `k` is `lo + k * step` |
| `Windowing.StartsShape` | perch_analyzer.py:80 | There are `(n - chunk) / step + 1` chunk starts, or none when `n < chunk`. Start `k` is `k * step` |
| `Windowing.StartsFitExactly` | perch_analyzer.py:80-81 | Index `k` is among the starts exactly when `k * step + chunk <= n` |
| `Windowing.StartsAreFittingMultiples` | perch_analyzer.py:80 | A value `s` is a chunk start exactly when `s` is a non-negative multiple of `step` and `s + chunk <= n` |
| `Windowing.StartsInRange` | perch_analyzer.py:80-82 | No chunk reads past the end of the signal, and the starts increase strictly |
| `Windowing.WindowsShape` | perch_analyzer.py:74-84 | After padding, the chunk list and the timestamp list have the same length, `(len - chunk) / step + 1`. Chunk `i` is the `chunk` samples from `i * step` on, which lie inside the padded signal. Timestamp `i` is `(i * step / rate, (i * step + chunk) / rate)` |
| `Windowing.WindowAt` | perch_analyzer.py:81-84 | Window `w` is `padded[w * step .. w * step + chunk]`, and its bounds are those of sample `w * step` |
| `Windowing.WindowExists` | perch_analyzer.py:80 | Every start `w * step` at which a whole chunk fits has a window |
| `Windowing.Segment` | perch_analyzer.py:73-84 | The padding and the chunk loop produce exactly the chunk and timestamp lists of the windowing definition. There are `(len - chunk) / step + 1` of each, which is at least one, every chunk has `chunk` samples, and timestamp `i` is the bounds of sample `i * step` |
| `Windowing.WindowsInTimeOrder` | perch_analyzer.py:84 | Window start and end times increase strictly from one window to the next, and every window lasts `chunk / rate` seconds |
| `Windowing.ShortSignalOneWindow` | perch_analyzer.py:74-84 | A signal shorter than one window gives exactly one window: the signal followed by zeros, spanning `0` to `chunk / rate` seconds |
| `Windowing.WindowCountExamples` | perch_analyzer.py:80 | 160000 samples with window and stride 160000 give one window. 320000 samples with window 160000 and stride 80000 give starts 0, 80000 and 160000 |
| `Detections.IndicesBelow` | perch_analyzer.py:108 | The indices below `n` that are returned are exactly those whose probability is at least `min_conf`, and they are strictly increasing |
| `Detections.IndicesAtLeast` | perch_analyzer.py:108 | An index is selected exactly when its probability is at least `min_conf`. The selected indices are strictly increasing |
| `Detections.HitsUpToExact` | perch_analyzer.py:95-110 | The surviving (window, class) pairs are exactly the pairs whose probability is at least `min_conf`, equality included |
| `Detections.HitsUpToSorted` | perch_analyzer.py:95-110 | The surviving pairs come in strictly increasing (window, class index) order |
| `Detections.HitsOnce` | perch_analyzer.py:108-110 | Each pair that reaches the threshold appears exactly once among the surviving pairs |
| `Detections.RecordsMatchHits` | perch_analyzer.py:93-120 | The records built window by window equal the reference list: record `k` belongs to the `k`-th surviving (window, class) pair |
| `Detections.RecordsSound` | perch_analyzer.py:110-120 | Record `k` has the probability of its pair, which is at least `min_conf`. It has its window's start and end times, and its class's label in both `common_name` and `label` |
| `Detections.RecordsAboveThreshold` | perch_analyzer.py:108-119 | No record has a confidence below `min_conf`, and every record's `common_name` equals its `label` |
| `Detections.RecordsComplete` | perch_analyzer.py:108-120 | Every (window, class) pair whose probability is at least `min_conf`, equality included, has its record in the output |
| `Detections.AppendWindow` | perch_analyzer.py:108-120 | The inner loop appends exactly that window's records to the list, in increasing class order. Each appended record reaches the threshold and carries the window's bounds |
| `Detections.Decode` | perch_analyzer.py:93-120 | The nested loops produce exactly the specified record list. Every record reaches the threshold and has `common_name == label` |
| `Analyzer.AnalysisInTimeOrder` | perch_analyzer.py:77-120 | Records come in time order: a later record never starts or ends before an earlier one |
| `Analyzer.AnalysisRecordsFromWindows` | perch_analyzer.py:80-120 | Each record comes from some window `w` and class `idx`. Its bounds are `(w * step / rate, (w * step + chunk) / rate)`. Its confidence is the classifier's probability for `idx` on `padded[w * step .. w * step + chunk]` and is at least `min_conf`. Its name is the label of `idx` |
| `Analyzer.AnalysisComplete` | perch_analyzer.py:80-120 | For every window start at which a chunk fits, and every class whose probability on that chunk is at least `min_conf`, the output holds that class's record with that window's bounds |
| `Analyzer.PerchAnalyzer.constructor` | perch_analyzer.py:9-22 | A new analyzer has the label column as its catalog when a label file was read, and the fallback catalog otherwise |
| `Analyzer.PerchAnalyzer.LoadLabels` | perch_analyzer.py:24-56 | The catalog becomes the file's `ebird2021` column when a file was read. When no file was found or reading failed, it becomes the fallback catalog |
| `Analyzer.PerchAnalyzer.Analyze` | perch_analyzer.py:58-122 | A recording that cannot be decoded gives no records. Otherwise the result is the specified analysis of the signal, with the analyzer's window length, sample rate and catalog. Every record reaches the threshold |

## Window and stride lengths

`perch_analyzer.py` computes both lengths with `int()`, which truncates
(lines 66-67). With the constant 5-second window at 32000 samples per second,
the window is exactly `160000` samples; the model fixes it as `ChunkSamples`.
The stride is a positive whole-number parameter of `Analyze`. A zero stride
makes `range` raise an error that `analyze` does not catch (line 80).

## Left out

- The derivation of `chunk_samples` and `step_samples` from the float window
  duration and `overlap` (perch_analyzer.py:66-67) is not modelled. The window
  length is the constant `ChunkSamples`, and the stride is a positive parameter.
  `int()` truncates toward zero. So an `overlap` of at least about
  `1 + 1/160000` gives a negative stride, an empty `range` and the result `[]`.
  An `overlap` close enough to 1 on either side truncates to a zero stride, and
  `range` then raises (line 80). Neither case is covered.
- The default arguments `min_conf=0.1` and `overlap=0.0` of `analyze`
  (line 58) and `model_url` of `__init__` (line 9) are not modelled: `Analyze`
  takes the threshold and the stride explicitly. The default call corresponds
  to `minConf == 0.1` and `stepSamples == ChunkSamples`.
- `Analyzer.PerchAnalyzer.Analyze`: requires a positive stride. A zero stride
  makes `range` raise in the source, and this error path is not modelled.
- The early return `if not chunks: return []` (perch_analyzer.py:86-87) has no
  branch in the model. After padding with a positive stride it cannot be
  reached, and `Analyze` asserts that at least one chunk exists.
- Model loading and inference (`hub.load`, the serving signature and
  `infer_fn`, perch_analyzer.py:17-21, 101) are foreign calls. The sigmoid and
  the `float32` conversion (lines 90, 105) are floating-point numerics. All of
  these are the `infer` parameter, a total function from a window's samples to
  per-class probabilities.
- Audio decoding with `librosa.load` (lines 61-64) is I/O. It becomes the
  `Audio` input, and a decode error gives an empty result.
- The label-file search (`os.path.exists`, `os.walk`, `pd.read_csv`, lines
  26-49) is filesystem I/O. It becomes the `LabelSource` input: a column that
  was read, no file, or a read error.
- Log output (`print`) is left out.
- Floating point is left out. Samples, probabilities and timestamps are exact
  reals. NaN probabilities, which never pass `>=`, and rounding in
  `start / rate` are not modelled.
- Label entries are modelled as strings. A CSV cell that pandas reads as a
  non-string value is not modelled.
- The `model_url`, `model` and `infer_fn` fields are left out, because they
  belong to inference.
- `bird_app.py` is a dashboard (widgets, charts, CSV export) and is not part of
  this model.
