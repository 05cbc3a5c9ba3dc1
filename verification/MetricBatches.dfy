/** The agent's bounded metric batches: folding scrape results into batches that
    respect the record and byte limits (crates/agent/src/lib.rs:50-52, 564-586,
    707-820, 887-942).

    A string stands for its bytes.  Encoding, compression and the connection are
    one oracle per hand-over: the frame was shipped, abandoned at shutdown, or the
    connection failed, which ends the agent. */
module MetricBatches {
  import opened Wrappers

  const METRIC_SAMPLE_WIRE_BYTES: nat := 24
  const SERIES_WIRE_FIXED_BYTES: nat := 11
  const LABEL_WIRE_FIXED_BYTES: nat := 3

  type Fingerprint = nat

  datatype Label = Label(key: string, value: string)

  datatype Series = Series(fingerprint: Fingerprint, kind: nat, labels: seq<Label>)

  datatype Sample = Sample(fingerprint: Fingerprint, ts: nat, value: real)

  datatype ScrapeResult = ScrapeResult(series: seq<Series>, samples: seq<Sample>)

  type Dictionary = map<Fingerprint, Series>

  /** What is handed to the connection. */
  datatype Batch = Batch(series: Dictionary, samples: seq<Sample>, recordCount: nat, tsMin: nat, tsMax: nat)

  datatype Shipment = Shipped | Abandoned | Failed

  function SatAdd(a: nat, b: nat): nat {
    if a + b > USIZE_MAX then USIZE_MAX else a + b
  }

  function Sat(n: nat): nat {
    if n > USIZE_MAX then USIZE_MAX else n
  }

  // ---------------------------------------------------------------- sizes

  /** Wire bytes of the first `n` labels, exactly. */
  function LabelBytes(labels: seq<Label>, n: nat): nat
    requires n <= |labels|
  {
    if n == 0 then 0
    else LabelBytes(labels, n - 1) + LABEL_WIRE_FIXED_BYTES + |labels[n - 1].key| + |labels[n - 1].value|
  }

  function SeriesBytes(s: Series): nat {
    SERIES_WIRE_FIXED_BYTES + LabelBytes(s.labels, |s.labels|)
  }

  method ApproxSeriesBytes(s: Series) returns (size: nat)
    ensures size == Sat(SeriesBytes(s))
  {
    size := SERIES_WIRE_FIXED_BYTES;
    for i := 0 to |s.labels|
      invariant size == Sat(SERIES_WIRE_FIXED_BYTES + LabelBytes(s.labels, i))
    {
      size := SatAdd(size, SatAdd(SatAdd(LABEL_WIRE_FIXED_BYTES, |s.labels[i].key|), |s.labels[i].value|));
    }
  }

  predicate Uses(samples: seq<Sample>, n: nat, fp: Fingerprint)
    requires n <= |samples|
  {
    exists i :: 0 <= i < n && samples[i].fingerprint == fp
  }

  /** Exact bytes of the first `n` samples of a batch: each sample, and each series
      they use once. */
  function BatchBytes(series: Dictionary, samples: seq<Sample>, n: nat): nat
    requires n <= |samples| && forall i | 0 <= i < n :: samples[i].fingerprint in series
  {
    if n == 0 then 0
    else
      var fp := samples[n - 1].fingerprint;
      BatchBytes(series, samples, n - 1) + METRIC_SAMPLE_WIRE_BYTES
      + if Uses(samples, n - 1, fp) then 0 else SeriesBytes(series[fp])
  }

  // ---------------------------------------------------------------- a batch

  /** The dictionary holds exactly the series the samples use, each under its own fingerprint. */
  ghost predicate ExactDictionary(series: Dictionary, samples: seq<Sample>) {
    && (forall fp :: fp in series <==> Uses(samples, |samples|, fp))
    && forall fp | fp in series :: series[fp].fingerprint == fp
  }

  /** One entry per sample, for the sample's fingerprint. */
  predicate Aligned(samples: seq<Sample>, entries: seq<Series>) {
    |samples| == |entries| && forall i | 0 <= i < |samples| :: entries[i].fingerprint == samples[i].fingerprint
  }

  /** The dictionary that the samples' entries make, the first entry of a fingerprint standing. */
  function DictOf(entries: seq<Series>): Dictionary {
    if entries == [] then map[] else WithSeries(DictOf(entries[..|entries| - 1]), entries[|entries| - 1])
  }

  /** The entry of a fingerprint is the one its first sample came with. */
  lemma {:induction false} DictHoldsFirst(entries: seq<Series>, fp: Fingerprint)
    ensures fp in DictOf(entries) <==> exists i :: 0 <= i < |entries| && entries[i].fingerprint == fp
    ensures fp in DictOf(entries) ==>
      exists i :: 0 <= i < |entries| && entries[i] == DictOf(entries)[fp] && entries[i].fingerprint == fp
        && forall j | 0 <= j < i :: entries[j].fingerprint != fp
  {
    if entries != [] {
      var n := |entries| - 1;
      var before := entries[..n];
      DictHoldsFirst(before, fp);
      assert forall i | 0 <= i < n :: before[i] == entries[i];
      if fp in DictOf(entries) && fp !in DictOf(before) {
        assert entries[n].fingerprint == fp && forall j | 0 <= j < n :: before[j].fingerprint != fp;
      }
    }
  }

  lemma DictGrows(entries: seq<Series>, entry: Series)
    ensures DictOf(entries + [entry]) == WithSeries(DictOf(entries), entry)
  {
    assert (entries + [entry])[..|entries|] == entries;
  }

  /** The dictionary holds, for the samples, the entries they came with. */
  predicate Explained(series: Dictionary, samples: seq<Sample>, entries: seq<Series>) {
    Aligned(samples, entries) && series == DictOf(entries)
  }

  predicate Earliest(samples: seq<Sample>, ts: nat) {
    (exists i :: 0 <= i < |samples| && samples[i].ts == ts) && forall i | 0 <= i < |samples| :: ts <= samples[i].ts
  }

  predicate Latest(samples: seq<Sample>, ts: nat) {
    (exists i :: 0 <= i < |samples| && samples[i].ts == ts) && forall i | 0 <= i < |samples| :: samples[i].ts <= ts
  }

  ghost predicate WithinLimits(series: Dictionary, samples: seq<Sample>, maxRecords: nat, maxBytes: nat) {
    && ExactDictionary(series, samples)
    && |samples| <= (if maxRecords == 0 then 1 else maxRecords)
    && (|samples| <= 1 || Sat(BatchBytes(series, samples, |samples|)) <= maxBytes)
  }

  /** A well-formed batch: the dictionary its samples' entries make, exact counts and
      times, within both limits. */
  ghost predicate BatchOk(b: Batch, entries: seq<Series>, maxRecords: nat, maxBytes: nat) {
    && b.samples != [] && b.recordCount == |b.samples| && Explained(b.series, b.samples, entries)
    && WithinLimits(b.series, b.samples, maxRecords, maxBytes)
    && Earliest(b.samples, b.tsMin) && Latest(b.samples, b.tsMax)
  }

  // ---------------------------------------------------------------- adding a sample

  lemma {:induction false} BatchBytesExtends(series: Dictionary, more: Dictionary, samples: seq<Sample>, s: Sample, n: nat)
    requires n <= |samples| && (forall i | 0 <= i < n :: samples[i].fingerprint in series)
    requires forall fp | fp in series :: fp in more && more[fp] == series[fp]
    ensures BatchBytes(more, samples + [s], n) == BatchBytes(series, samples, n)
  {
    if n > 0 {
      BatchBytesExtends(series, more, samples, s, n - 1);
      var fp := samples[n - 1].fingerprint;
      assert (samples + [s])[n - 1] == samples[n - 1];
      UsesExtends(samples, s, n - 1, fp);
    }
  }

  lemma UsesExtends(samples: seq<Sample>, s: Sample, n: nat, fp: Fingerprint)
    requires n <= |samples|
    ensures Uses(samples + [s], n, fp) == Uses(samples, n, fp)
  {
    if i :| 0 <= i < n && samples[i].fingerprint == fp {
      assert (samples + [s])[i].fingerprint == fp;
    }
  }

  lemma UsesAfter(samples: seq<Sample>, s: Sample, fp: Fingerprint)
    ensures Uses(samples + [s], |samples| + 1, fp) <==> Uses(samples, |samples|, fp) || fp == s.fingerprint
  {
    UsesExtends(samples, s, |samples|, fp);
    assert (samples + [s])[|samples|] == s;
    if i :| 0 <= i < |samples| + 1 && (samples + [s])[i].fingerprint == fp {
      assert i < |samples| ==> samples[i].fingerprint == fp;
    }
    if i :| 0 <= i < |samples| && samples[i].fingerprint == fp {
      assert (samples + [s])[i].fingerprint == fp;
    }
  }

  /** The dictionary after a sample, which brings its series if it is new. */
  function WithSeries(series: Dictionary, entry: Series): Dictionary {
    if entry.fingerprint in series then series else series[entry.fingerprint := entry]
  }

  lemma SampleAdded(series: Dictionary, samples: seq<Sample>, entry: Series, s: Sample)
    requires ExactDictionary(series, samples) && entry.fingerprint == s.fingerprint
    ensures var more, all := WithSeries(series, entry), samples + [s];
      && ExactDictionary(more, all)
      && (forall i | 0 <= i < |samples| :: samples[i].fingerprint in series)
      && (forall i | 0 <= i < |all| :: all[i].fingerprint in more)
      && BatchBytes(more, all, |all|) == BatchBytes(series, samples, |samples|) + METRIC_SAMPLE_WIRE_BYTES
         + (if s.fingerprint in series then 0 else SeriesBytes(entry))
  {
    var more, all := WithSeries(series, entry), samples + [s];
    forall fp ensures fp in more <==> Uses(all, |all|, fp) {
      UsesAfter(samples, s, fp);
    }
    forall i | 0 <= i < |samples| ensures samples[i].fingerprint in series {
      assert Uses(samples, |samples|, samples[i].fingerprint);
    }
    forall i | 0 <= i < |all| ensures all[i].fingerprint in more {
      assert Uses(all, |all|, all[i].fingerprint);
    }
    BatchBytesExtends(series, more, samples, s, |samples|);
    UsesExtends(samples, s, |samples|, s.fingerprint);
  }

  lemma EarliestAdded(samples: seq<Sample>, s: Sample, ts: nat)
    requires samples == [] || Earliest(samples, ts)
    ensures Earliest(samples + [s], if samples == [] || s.ts < ts then s.ts else ts)
  {
    var all := samples + [s];
    assert all[|samples|] == s;
    if samples != [] {
      var i :| 0 <= i < |samples| && samples[i].ts == ts;
      assert all[i].ts == ts;
    }
  }

  lemma LatestAdded(samples: seq<Sample>, s: Sample, ts: nat)
    requires samples == [] || Latest(samples, ts)
    ensures Latest(samples + [s], if samples == [] || ts < s.ts then s.ts else ts)
  {
    var all := samples + [s];
    assert all[|samples|] == s;
    if samples != [] {
      var i :| 0 <= i < |samples| && samples[i].ts == ts;
      assert all[i].ts == ts;
    }
  }

  // ---------------------------------------------------------------- one scrape

  /** Series kept for a scrape, with how many of its samples are still to come. */
  type Kept = map<Fingerprint, (Series, nat)>

  /** Samples from `i` on that belong to `fp`. */
  function CountFrom(samples: seq<Sample>, i: nat, fp: Fingerprint): nat
    requires i <= |samples|
    decreases |samples| - i
  {
    if i == |samples| then 0
    else (if samples[i].fingerprint == fp then 1 else 0) + CountFrom(samples, i + 1, fp)
  }

  /** A sample with the series entry its scrape gave it. */
  datatype Delivery = Delivery(sample: Sample, entry: Series)

  /** The first `n` samples whose series is kept, in arrival order, each with the entry kept. */
  function KeptDeliveries(dict: Dictionary, samples: seq<Sample>, n: nat): seq<Delivery>
    requires n <= |samples|
  {
    if n == 0 then []
    else
      var s := samples[n - 1];
      KeptDeliveries(dict, samples, n - 1) + if s.fingerprint in dict then [Delivery(s, dict[s.fingerprint])] else []
  }

  function SamplesOf(parts: seq<Delivery>): seq<Sample> {
    seq(|parts|, i requires 0 <= i < |parts| => parts[i].sample)
  }

  function EntriesOf(parts: seq<Delivery>): seq<Series> {
    seq(|parts|, i requires 0 <= i < |parts| => parts[i].entry)
  }

  /** The last of the first `n` series with this fingerprint. */
  ghost predicate IsLast(series: seq<Series>, n: nat, entry: Series)
    requires n <= |series|
  {
    exists i :: IsLastAt(series, n, entry, i)
  }

  predicate IsLastAt(series: seq<Series>, n: nat, entry: Series, i: int)
    requires n <= |series|
  {
    0 <= i < n && series[i] == entry && forall j | i < j < n :: series[j].fingerprint != entry.fingerprint
  }

  /** The allow-list decision for a fingerprint, made once and cached. */
  predicate Decided(filterEmpty: bool, cache: map<Fingerprint, bool>, fp: Fingerprint) {
    filterEmpty || (fp in cache && cache[fp])
  }

  predicate Mentions(series: seq<Series>, n: nat, fp: Fingerprint)
    requires n <= |series|
  {
    exists i :: 0 <= i < n && series[i].fingerprint == fp
  }

  /** `kept` holds exactly the fingerprints of the scrape that pass, each with its last entry. */
  ghost predicate KeptOk(series: seq<Series>, n: nat, filterEmpty: bool, cache: map<Fingerprint, bool>, kept: Kept)
    requires n <= |series|
  {
    && (forall fp :: fp in kept <==> Decided(filterEmpty, cache, fp) && Mentions(series, n, fp))
    && forall fp | fp in kept :: kept[fp].0.fingerprint == fp && IsLast(series, n, kept[fp].0) && kept[fp].1 == 0
  }

  /** Old decisions stand; a new one follows the labels the fingerprint first came with. */
  ghost predicate CacheOk(
    series: seq<Series>, n: nat, keeps: seq<Label> -> bool, before: map<Fingerprint, bool>, cache: map<Fingerprint, bool>)
    requires n <= |series|
  {
    && (forall fp | fp in before :: fp in cache && cache[fp] == before[fp])
    && (forall i | 0 <= i < n :: series[i].fingerprint in cache)
    && forall fp | fp in cache && fp !in before :: IsFirst(series, n, fp, keeps, cache[fp])
  }

  ghost predicate IsFirst(series: seq<Series>, n: nat, fp: Fingerprint, keeps: seq<Label> -> bool, decision: bool)
    requires n <= |series|
  {
    exists i :: 0 <= i < n && series[i].fingerprint == fp && decision == keeps(series[i].labels)
      && forall j | 0 <= j < i :: series[j].fingerprint != fp
  }

  lemma IsLastStep(series: seq<Series>, n: nat, entry: Series)
    requires n < |series| && series[n].fingerprint != entry.fingerprint && IsLast(series, n, entry)
    ensures IsLast(series, n + 1, entry)
  {
    var i :| IsLastAt(series, n, entry, i);
    assert IsLastAt(series, n + 1, entry, i);
  }

  lemma NewestIsLast(series: seq<Series>, n: nat)
    requires n < |series|
    ensures IsLast(series, n + 1, series[n])
  {
    assert IsLastAt(series, n + 1, series[n], n);
  }

  /** One more series: its decision, now cached, says whether it joins. */
  lemma KeptStep(series: seq<Series>, n: nat, filterEmpty: bool, before: map<Fingerprint, bool>,
                 cache: map<Fingerprint, bool>, kept: Kept)
    requires n < |series| && KeptOk(series, n, filterEmpty, before, kept)
    requires forall fp | fp != series[n].fingerprint :: Decided(filterEmpty, cache, fp) == Decided(filterEmpty, before, fp)
    requires Mentions(series, n, series[n].fingerprint) ==>
      Decided(filterEmpty, cache, series[n].fingerprint) == Decided(filterEmpty, before, series[n].fingerprint)
    ensures var fp := series[n].fingerprint;
      KeptOk(series, n + 1, filterEmpty, cache, if Decided(filterEmpty, cache, fp) then kept[fp := (series[n], 0)] else kept)
  {
    var fp := series[n].fingerprint;
    var next := if Decided(filterEmpty, cache, fp) then kept[fp := (series[n], 0)] else kept;
    NewestIsLast(series, n);
    forall other | other in next ensures IsLast(series, n + 1, next[other].0) {
      if other != fp {
        IsLastStep(series, n, kept[other].0);
      }
    }
    assert forall other :: Mentions(series, n + 1, other) <==> Mentions(series, n, other) || series[n].fingerprint == other;
  }

  lemma CacheStep(series: seq<Series>, n: nat, keeps: seq<Label> -> bool, before: map<Fingerprint, bool>, cache: map<Fingerprint, bool>)
    requires n < |series| && CacheOk(series, n, keeps, before, cache)
    ensures var fp := series[n].fingerprint;
      CacheOk(series, n + 1, keeps, before, if fp in cache then cache else cache[fp := keeps(series[n].labels)])
  {
    var fp := series[n].fingerprint;
    var next := if fp in cache then cache else cache[fp := keeps(series[n].labels)];
    forall other | other in next && other !in before ensures IsFirst(series, n + 1, other, keeps, next[other]) {
      if other in cache {
        assert IsFirst(series, n, other, keeps, cache[other]);
      }
    }
  }

  // ---------------------------------------------------------------- the pending batch as a value

  /** The pending batch (`MetricsPending`). */
  datatype Pending = Pending(series: Dictionary, samples: seq<Sample>, recordCount: nat, approxBytes: nat, tsMin: nat, tsMax: nat)
  {
    predicate WouldOverflow(nextBytes: nat, maxRecords: nat, maxBytes: nat) {
      recordCount > 0 && (recordCount >= maxRecords || SatAdd(approxBytes, nextBytes) > maxBytes)
    }

    /** Bytes the next sample adds. */
    function NextBytes(fp: Fingerprint, seriesBytes: nat): nat {
      if fp in series then METRIC_SAMPLE_WIRE_BYTES else SatAdd(seriesBytes, METRIC_SAMPLE_WIRE_BYTES)
    }
  }

  const EMPTY := Pending(map[], [], 0, 0, 0, 0)

  ghost predicate PendingOk(p: Pending, entries: seq<Series>, maxRecords: nat, maxBytes: nat) {
    && p.recordCount == |p.samples| && Explained(p.series, p.samples, entries)
    && WithinLimits(p.series, p.samples, maxRecords, maxBytes)
    && p.approxBytes == Sat(BatchBytes(p.series, p.samples, |p.samples|))
    && (p.samples != [] ==> Earliest(p.samples, p.tsMin) && Latest(p.samples, p.tsMax))
  }

  /** The pending batch with one more sample, which brings its series if it is new. */
  function Pushed(p: Pending, sample: Sample, entry: Series, seriesBytes: nat): Pending {
    Pending(WithSeries(p.series, entry), p.samples + [sample], p.recordCount + 1,
            SatAdd(if sample.fingerprint in p.series then p.approxBytes else SatAdd(p.approxBytes, seriesBytes), METRIC_SAMPLE_WIRE_BYTES),
            if p.recordCount == 0 || sample.ts < p.tsMin then sample.ts else p.tsMin,
            if p.recordCount == 0 || p.tsMax < sample.ts then sample.ts else p.tsMax)
  }

  lemma PushedWithinLimits(p: Pending, entries: seq<Series>, sample: Sample, entry: Series, maxRecords: nat, maxBytes: nat)
    requires PendingOk(p, entries, maxRecords, maxBytes) && entry.fingerprint == sample.fingerprint
    requires !p.WouldOverflow(p.NextBytes(sample.fingerprint, Sat(SeriesBytes(entry))), maxRecords, maxBytes)
    ensures var q := Pushed(p, sample, entry, Sat(SeriesBytes(entry)));
      WithinLimits(q.series, q.samples, maxRecords, maxBytes) && q.approxBytes == Sat(BatchBytes(q.series, q.samples, |q.samples|))
  {
    SampleAdded(p.series, p.samples, entry, sample);
  }

  lemma {:induction false} PushedIsExplained(p: Pending, entries: seq<Series>, sample: Sample, entry: Series, seriesBytes: nat)
    requires p.recordCount == |p.samples| && Explained(p.series, p.samples, entries) && entry.fingerprint == sample.fingerprint
    ensures var q := Pushed(p, sample, entry, seriesBytes);
      q.recordCount == |q.samples| && Explained(q.series, q.samples, entries + [entry])
  {
    DictGrows(entries, entry);
  }

  lemma {:induction false} PushedIsTimed(p: Pending, sample: Sample, entry: Series, seriesBytes: nat)
    requires p.recordCount == |p.samples| && (p.samples != [] ==> Earliest(p.samples, p.tsMin) && Latest(p.samples, p.tsMax))
    ensures var q := Pushed(p, sample, entry, seriesBytes); Earliest(q.samples, q.tsMin) && Latest(q.samples, q.tsMax)
  {
    EarliestAdded(p.samples, sample, p.tsMin);
    LatestAdded(p.samples, sample, p.tsMax);
  }

  /** A sample that fits keeps the batch in order. */
  lemma {:induction false} PushedOk(p: Pending, entries: seq<Series>, sample: Sample, entry: Series, maxRecords: nat, maxBytes: nat)
    requires PendingOk(p, entries, maxRecords, maxBytes) && entry.fingerprint == sample.fingerprint
    requires !p.WouldOverflow(p.NextBytes(sample.fingerprint, Sat(SeriesBytes(entry))), maxRecords, maxBytes)
    ensures PendingOk(Pushed(p, sample, entry, Sat(SeriesBytes(entry))), entries + [entry], maxRecords, maxBytes)
  {
    PushedWithinLimits(p, entries, sample, entry, maxRecords, maxBytes);
    PushedIsExplained(p, entries, sample, entry, Sat(SeriesBytes(entry)));
    PushedIsTimed(p, sample, entry, Sat(SeriesBytes(entry)));
  }

  // ---------------------------------------------------------------- batches as folds of deliveries

  /** The pending batch after these deliveries. */
  function Filled(parts: seq<Delivery>): Pending {
    if parts == [] then EMPTY
    else
      var d := parts[|parts| - 1];
      Pushed(Filled(parts[..|parts| - 1]), d.sample, d.entry, Sat(SeriesBytes(d.entry)))
  }

  /** None of them overflowed the batch it joined. */
  predicate Fits(parts: seq<Delivery>, maxRecords: nat, maxBytes: nat) {
    parts == [] ||
      var n := |parts| - 1;
      var before, d := Filled(parts[..n]), parts[n];
      && d.entry.fingerprint == d.sample.fingerprint
      && !before.WouldOverflow(before.NextBytes(d.sample.fingerprint, Sat(SeriesBytes(d.entry))), maxRecords, maxBytes)
      && Fits(parts[..n], maxRecords, maxBytes)
  }

  function Packed(p: Pending): Batch {
    Batch(p.series, p.samples, p.recordCount, p.tsMin, p.tsMax)
  }

  /** Deliveries that fit make a batch in order: it holds their samples, the entry each
      fingerprint came with first, exact sizes and times, within both limits. */
  lemma {:induction false} FilledIsExact(parts: seq<Delivery>, maxRecords: nat, maxBytes: nat)
    requires Fits(parts, maxRecords, maxBytes)
    ensures PendingOk(Filled(parts), EntriesOf(parts), maxRecords, maxBytes) && Filled(parts).samples == SamplesOf(parts)
  {
    if parts == [] {
      EmptyIsOk(maxRecords, maxBytes);
    } else {
      var n := |parts| - 1;
      var front, d := parts[..n], parts[n];
      FilledIsExact(front, maxRecords, maxBytes);
      PushedOk(Filled(front), EntriesOf(front), d.sample, d.entry, maxRecords, maxBytes);
      LastDelivery(parts);
    }
  }

  lemma EmptyIsOk(maxRecords: nat, maxBytes: nat)
    ensures PendingOk(EMPTY, [], maxRecords, maxBytes)
  {
  }

  lemma LastDelivery(parts: seq<Delivery>)
    requires parts != []
    ensures var n := |parts| - 1;
      && EntriesOf(parts) == EntriesOf(parts[..n]) + [parts[n].entry]
      && SamplesOf(parts) == SamplesOf(parts[..n]) + [parts[n].sample]
  {
  }

  lemma FillsOneMore(parts: seq<Delivery>, d: Delivery, maxRecords: nat, maxBytes: nat)
    requires Fits(parts, maxRecords, maxBytes) && d.entry.fingerprint == d.sample.fingerprint
    requires var p := Filled(parts); !p.WouldOverflow(p.NextBytes(d.sample.fingerprint, Sat(SeriesBytes(d.entry))), maxRecords, maxBytes)
    ensures Fits(parts + [d], maxRecords, maxBytes)
    ensures Filled(parts + [d]) == Pushed(Filled(parts), d.sample, d.entry, Sat(SeriesBytes(d.entry)))
  {
    assert (parts + [d])[..|parts|] == parts;
  }

  /** The batches handed over are those of the successive parts. */
  predicate Sends(handed: seq<Batch>, parts: seq<seq<Delivery>>, maxRecords: nat, maxBytes: nat)
    decreases |handed|
  {
    if handed == [] then parts == []
    else
      var n := |handed| - 1;
      && |parts| == |handed| && parts[n] != [] && Fits(parts[n], maxRecords, maxBytes) && handed[n] == Packed(Filled(parts[n]))
      && Sends(handed[..n], parts[..n], maxRecords, maxBytes)
  }

  lemma SendsOneMore(handed: seq<Batch>, parts: seq<seq<Delivery>>, part: seq<Delivery>, maxRecords: nat, maxBytes: nat)
    requires Sends(handed, parts, maxRecords, maxBytes) && part != [] && Fits(part, maxRecords, maxBytes)
    ensures Sends(handed + [Packed(Filled(part))], parts + [part], maxRecords, maxBytes)
  {
    assert (handed + [Packed(Filled(part))])[..|handed|] == handed;
    assert handed == [] ==> parts == [];
    assert |parts| == |handed| && (parts + [part])[..|parts|] == parts;
  }

  /** Every batch handed over is in order, with the deliveries of its part. */
  lemma {:induction false} SentIsExact(handed: seq<Batch>, parts: seq<seq<Delivery>>, maxRecords: nat, maxBytes: nat, i: nat)
    requires Sends(handed, parts, maxRecords, maxBytes) && i < |handed|
    ensures |parts| == |handed| && handed[i].samples == SamplesOf(parts[i])
    ensures BatchOk(handed[i], EntriesOf(parts[i]), maxRecords, maxBytes)
    decreases |handed|
  {
    var n := |handed| - 1;
    if i == n {
      FilledIsExact(parts[n], maxRecords, maxBytes);
    } else {
      SentIsExact(handed[..n], parts[..n], maxRecords, maxBytes, i);
    }
  }

  // ---------------------------------------------------------------- batches are no smaller than they must be

  predicate Brings(part: seq<Delivery>, fp: Fingerprint) {
    exists i :: 0 <= i < |part| && part[i].sample.fingerprint == fp
  }

  /** Exact bytes of the deliveries: each sample, and its series the first time it comes. */
  function WireBytes(part: seq<Delivery>): nat {
    if part == [] then 0
    else
      var n := |part| - 1;
      var d := part[n];
      WireBytes(part[..n]) + METRIC_SAMPLE_WIRE_BYTES
      + if Brings(part[..n], d.sample.fingerprint) then 0 else SeriesBytes(d.entry)
  }

  /** There is no room for `next`: by count, or by the bytes the batch would have with it. */
  predicate Full(part: seq<Delivery>, next: Delivery, maxRecords: nat, maxBytes: nat) {
    |part| >= maxRecords || Sat(WireBytes(part + [next])) > maxBytes
  }

  lemma {:induction false} FilledBrings(part: seq<Delivery>, fp: Fingerprint)
    requires forall i | 0 <= i < |part| :: part[i].entry.fingerprint == part[i].sample.fingerprint
    ensures fp in Filled(part).series <==> Brings(part, fp)
  {
    if part != [] {
      var n := |part| - 1;
      FilledBrings(part[..n], fp);
      assert Brings(part, fp) <==> Brings(part[..n], fp) || part[n].sample.fingerprint == fp;
    }
  }

  lemma {:induction false} FilledSizes(part: seq<Delivery>)
    requires forall i | 0 <= i < |part| :: part[i].entry.fingerprint == part[i].sample.fingerprint
    ensures Filled(part).recordCount == |part| && Filled(part).approxBytes == Sat(WireBytes(part))
  {
    if part != [] {
      var n := |part| - 1;
      FilledSizes(part[..n]);
      FilledBrings(part[..n], part[n].sample.fingerprint);
    }
  }

  lemma {:induction false} FittingIsAligned(part: seq<Delivery>, maxRecords: nat, maxBytes: nat)
    requires Fits(part, maxRecords, maxBytes)
    ensures forall i | 0 <= i < |part| :: part[i].entry.fingerprint == part[i].sample.fingerprint
  {
    if part != [] {
      var n := |part| - 1;
      FittingIsAligned(part[..n], maxRecords, maxBytes);
      assert forall i | 0 <= i < n :: part[i] == part[..n][i];
    }
  }

  /** A flush is due exactly when the batch is not empty and has no room. */
  lemma {:induction false} FlushedExactlyWhenFull(part: seq<Delivery>, next: Delivery, maxRecords: nat, maxBytes: nat)
    requires Fits(part, maxRecords, maxBytes)
    ensures var p := Filled(part);
      p.WouldOverflow(p.NextBytes(next.sample.fingerprint, Sat(SeriesBytes(next.entry))), maxRecords, maxBytes)
      <==> part != [] && Full(part, next, maxRecords, maxBytes)
  {
    FittingIsAligned(part, maxRecords, maxBytes);
    FilledSizes(part);
    FilledBrings(part, next.sample.fingerprint);
    assert (part + [next])[..|part|] == part;
  }

  /** The wire size of a batch is the exact size of its samples and dictionary. */
  lemma {:induction false} WireBytesAreBatchBytes(part: seq<Delivery>, maxRecords: nat, maxBytes: nat)
    requires Fits(part, maxRecords, maxBytes)
    ensures var p := Filled(part);
      && (forall i | 0 <= i < |p.samples| :: p.samples[i].fingerprint in p.series)
      && BatchBytes(p.series, p.samples, |p.samples|) == WireBytes(part)
  {
    if part != [] {
      var n := |part| - 1;
      var front, d := part[..n], part[n];
      WireBytesAreBatchBytes(front, maxRecords, maxBytes);
      FilledIsExact(front, maxRecords, maxBytes);
      SampleAdded(Filled(front).series, Filled(front).samples, d.entry, d.sample);
      FittingIsAligned(front, maxRecords, maxBytes);
      FilledBrings(front, d.sample.fingerprint);
    }
  }

  /** Each part from `from` on had no room for the first delivery after it; `rest` comes after the last. */
  predicate Tight(parts: seq<seq<Delivery>>, from: nat, rest: seq<Delivery>, maxRecords: nat, maxBytes: nat)
    decreases |parts|
  {
    |parts| <= from ||
      var n := |parts| - 1;
      rest != [] && Full(parts[n], rest[0], maxRecords, maxBytes) && Tight(parts[..n], from, parts[n], maxRecords, maxBytes)
  }

  /** A batch was handed over only when it had to be: it has the most records allowed, or
      with the delivery that came next it would have had more bytes than allowed. */
  lemma {:induction false} HandedOnlyWhenFull(
    parts: seq<seq<Delivery>>, from: nat, rest: seq<Delivery>, maxRecords: nat, maxBytes: nat, i: nat)
    requires Tight(parts, from, rest, maxRecords, maxBytes) && from <= i < |parts|
    ensures var after := if i + 1 < |parts| then parts[i + 1] else rest;
      after != [] && (|parts[i]| >= maxRecords || WireBytes(parts[i] + [after[0]]) > maxBytes)
    decreases |parts|
  {
    var n := |parts| - 1;
    if i < n {
      HandedOnlyWhenFull(parts[..n], from, parts[n], maxRecords, maxBytes, i);
    }
  }

  /** The delivery joins the last part, or a full part is closed before it. */
  predicate JoinsOrCloses(
    before: seq<seq<Delivery>>, taken: seq<Delivery>, next: Delivery, maxRecords: nat, maxBytes: nat,
    parts: seq<seq<Delivery>>, rest: seq<Delivery>)
  {
    if taken != [] && Full(taken, next, maxRecords, maxBytes)
    then parts == before + [taken] && rest == [next]
    else parts == before && rest == taken + [next]
  }

  lemma TightGrows(
    before: seq<seq<Delivery>>, taken: seq<Delivery>, next: Delivery, from: nat, maxRecords: nat, maxBytes: nat,
    parts: seq<seq<Delivery>>, rest: seq<Delivery>)
    requires Tight(before, from, taken, maxRecords, maxBytes) && from <= |before|
    requires JoinsOrCloses(before, taken, next, maxRecords, maxBytes, parts, rest)
    ensures Tight(parts, from, rest, maxRecords, maxBytes) && before <= parts
  {
    if parts != before {
      assert parts[..|before|] == before;
    }
  }

  function Joined(parts: seq<seq<Delivery>>): seq<Delivery>
    decreases |parts|
  {
    if parts == [] then [] else Joined(parts[..|parts| - 1]) + parts[|parts| - 1]
  }

  lemma JoinedGrows(parts: seq<seq<Delivery>>, part: seq<Delivery>)
    ensures Joined(parts + [part]) == Joined(parts) + part
  {
    assert (parts + [part])[..|parts|] == parts;
  }

  class MetricsBatcher {
    const maxRecords: nat
    const maxBytes: nat
    const filterEmpty: bool
    const keeps: seq<Label> -> bool
    const ships: nat -> Shipment

    var pending: Pending

    var keepCache: map<Fingerprint, bool>
    var dropped: nat
    var batchId: nat
    var handed: seq<Batch>

    /** The deliveries in the pending batch, and those of each batch handed over. */
    ghost var taken: seq<Delivery>
    ghost var parts: seq<seq<Delivery>>

    ghost predicate Sent()
      reads this
    {
      Sends(handed, parts, maxRecords, maxBytes)
    }

    ghost predicate Valid()
      reads this
    {
      Sent() && pending == Filled(taken) && Fits(taken, maxRecords, maxBytes)
    }

    /** Every delivery taken so far: those handed over, then those pending. */
    ghost function Total(): seq<Delivery>
      reads this
    {
      Joined(parts) + taken
    }

    constructor (maxRecords: nat, maxBytes: nat, filterEmpty: bool, keeps: seq<Label> -> bool, ships: nat -> Shipment)
      ensures Valid() && Total() == [] && dropped == 0
      ensures this.maxRecords == maxRecords && this.maxBytes == maxBytes
      ensures this.filterEmpty == filterEmpty && this.keeps == keeps && this.ships == ships
    {
      this.maxRecords, this.maxBytes, this.filterEmpty, this.keeps, this.ships := maxRecords, maxBytes, filterEmpty, keeps, ships;
      pending := EMPTY;
      keepCache, dropped, batchId, handed := map[], 0, 0, [];
      taken, parts := [], [];
    }

    method Reset()
      requires Sent()
      modifies `pending, `taken
      ensures Valid() && taken == []
    {
      pending := EMPTY;
      taken := [];
    }

    /** Hand the pending batch over, and start an empty one unless the connection failed. */
    method FlushMetrics() returns (ok: bool)
      requires Valid()
      modifies `pending, `batchId, `handed, `taken, `parts
      ensures Sent() && Total() == old(Total())
      ensures ok ==> Valid() && taken == []
      ensures ok == (old(taken) == [] || !ships(|old(handed)|).Failed?)
      ensures handed == old(handed) + if old(taken) == [] then [] else [Packed(Filled(old(taken)))]
      ensures taken == [] && parts == old(parts) + if old(taken) == [] then [] else [old(taken)]
      ensures batchId == old(batchId) + if old(taken) != [] && ships(|old(handed)|).Shipped? then 1 else 0
    {
      if pending.recordCount == 0 {
        return true;
      }
      var batch := Packed(pending);
      SendsOneMore(handed, parts, taken, maxRecords, maxBytes);
      JoinedGrows(parts, taken);
      pending := pending.(series := map[], samples := []);
      var outcome := ships(|handed|);
      handed := handed + [batch];
      parts, taken := parts + [taken], [];
      if outcome.Failed? {
        return false;
      }
      if outcome.Shipped? {
        batchId := batchId + 1;
      }
      Reset();
      return true;
    }

    predicate WouldOverflow(fp: Fingerprint, seriesBytes: nat)
      reads this
    {
      pending.WouldOverflow(pending.NextBytes(fp, seriesBytes), maxRecords, maxBytes)
    }

    /** Add a sample that fits, with its series if the batch does not have it yet. */
    method Push(sample: Sample, entry: Series, seriesBytes: nat)
      requires Valid() && entry.fingerprint == sample.fingerprint && seriesBytes == Sat(SeriesBytes(entry))
      requires !WouldOverflow(sample.fingerprint, seriesBytes)
      modifies `pending, `taken
      ensures Valid() && taken == old(taken) + [Delivery(sample, entry)]
      ensures Total() == old(Total()) + [Delivery(sample, entry)]
    {
      Associates(Joined(parts), taken, [Delivery(sample, entry)]);
      FillsOneMore(taken, Delivery(sample, entry), maxRecords, maxBytes);
      taken := taken + [Delivery(sample, entry)];
      var p := pending;
      if sample.fingerprint !in p.series {
        p := p.(approxBytes := SatAdd(p.approxBytes, seriesBytes), series := p.series[sample.fingerprint := entry]);
      }
      if p.recordCount == 0 {
        p := p.(tsMin := sample.ts, tsMax := sample.ts);
      } else {
        p := p.(tsMin := if sample.ts < p.tsMin then sample.ts else p.tsMin, tsMax := if p.tsMax < sample.ts then sample.ts else p.tsMax);
      }
      p := p.(approxBytes := SatAdd(p.approxBytes, METRIC_SAMPLE_WIRE_BYTES));
      pending := p.(recordCount := p.recordCount + 1, samples := p.samples + [sample]);
    }

    /** Flush first if the next sample would overflow the pending batch. */
    method MakeRoom(fp: Fingerprint, seriesBytes: nat, ghost next: Delivery) returns (ok: bool)
      requires Valid() && fp == next.sample.fingerprint && seriesBytes == Sat(SeriesBytes(next.entry))
      modifies `pending, `batchId, `handed, `taken, `parts
      ensures Sent() && Total() == old(Total())
      ensures ok ==> Valid() && !WouldOverflow(fp, seriesBytes)
      ensures if old(taken) != [] && Full(old(taken), next, maxRecords, maxBytes)
              then taken == [] && parts == old(parts) + [old(taken)]
              else ok && taken == old(taken) && parts == old(parts)
    {
      ok := true;
      FlushedExactlyWhenFull(taken, next, maxRecords, maxBytes);
      if WouldOverflow(fp, seriesBytes) {
        ok := FlushMetrics();
      }
    }

    /** One kept sample: make room, take one use of its series, add it with the entry
        kept.  The uses of a kept series never run out early.  The batch before is
        handed over exactly when it has no room for the sample. */
    method FoldSample(sample: Sample, kept: Kept) returns (ok: bool, rest: Kept)
      requires Valid() && sample.fingerprint in kept
      requires kept[sample.fingerprint].0.fingerprint == sample.fingerprint && kept[sample.fingerprint].1 > 0
      modifies `pending, `batchId, `handed, `taken, `parts
      ensures Sent() && Total() == old(Total()) + if ok then [Delivery(sample, kept[sample.fingerprint].0)] else []
      ensures ok ==> Valid() && OneUseTaken(kept, sample.fingerprint, rest)
      ensures JoinsOrCloses(old(parts), old(taken), Delivery(sample, kept[sample.fingerprint].0), maxRecords, maxBytes,
                            parts, if ok then taken else [Delivery(sample, kept[sample.fingerprint].0)])
    {
      rest := kept;
      var fp := sample.fingerprint;
      var entry := kept[fp].0;
      var seriesBytes := ApproxSeriesBytes(entry);
      ok := MakeRoom(fp, seriesBytes, Delivery(sample, entry));
      if !ok {
        return;
      }
      rest := TakeUse(kept, fp, fp in pending.series);
      Push(sample, entry, seriesBytes);
    }

    /** The decision for one series, cached unless the filter is empty. */
    method Decide(entry: Series) returns (keep: bool)
      modifies `keepCache
      ensures keepCache == NextCache(filterEmpty, keeps, old(keepCache), entry)
      ensures keep == Decided(filterEmpty, keepCache, entry.fingerprint)
    {
      if filterEmpty {
        return true;
      }
      if entry.fingerprint !in keepCache {
        keepCache := keepCache[entry.fingerprint := keeps(entry.labels)];
      }
      return keepCache[entry.fingerprint];
    }

    /** Which series of the scrape pass the allow-list. */
    method KeepSeries(list: seq<Series>) returns (kept: Kept)
      modifies `keepCache
      ensures ScanOk(list, |list|, filterEmpty, keeps, old(keepCache), keepCache, kept)
    {
      kept := map[];
      for i := 0 to |list|
        invariant ScanOk(list, i, filterEmpty, keeps, old(keepCache), keepCache, kept)
      {
        ScanStep(list, i, filterEmpty, keeps, old(keepCache), keepCache, kept);
        var keep := Decide(list[i]);
        if keep {
          kept := kept[list[i].fingerprint := (list[i], 0)];
        }
      }
    }

    /** One sample of the scrape: dropped and counted, or folded into the batches. */
    method TakeSample(list: seq<Sample>, i: nat, kept: Kept, ghost dict: Dictionary) returns (ok: bool, rest: Kept)
      requires i < |list| && Valid() && UsesOk(dict, list, i, kept)
      modifies `pending, `batchId, `handed, `dropped, `taken, `parts
      ensures Sent() && if ok then Valid() && UsesOk(dict, list, i + 1, rest) else list[i].fingerprint in dict
      ensures Total() == old(Total()) +
        if ok && list[i].fingerprint in dict then [Delivery(list[i], dict[list[i].fingerprint])] else []
      ensures dropped == old(dropped) + if list[i].fingerprint in dict then 0 else 1
      ensures if list[i].fingerprint in dict
              then JoinsOrCloses(old(parts), old(taken), Delivery(list[i], dict[list[i].fingerprint]), maxRecords, maxBytes,
                                 parts, Ahead(ok, taken, dict, list, i))
              else parts == old(parts) && taken == old(taken)
    {
      UsesStep(dict, list, i, kept);
      if list[i].fingerprint !in kept {
        dropped := dropped + 1;
        ok, rest := true, kept;
      } else {
        ok, rest := FoldSample(list[i], kept);
      }
    }

    /** The first `n` samples of the scrape are folded into what was there before, and each
        batch handed over since then had no room for the delivery after it. */
    ghost predicate Folded(dict: Dictionary, list: seq<Sample>, n: nat, ahead: seq<Delivery>,
                           total: seq<Delivery>, count: nat, before: seq<seq<Delivery>>)
      requires n <= |list|
      reads this
    {
      && Sent() && Total() == total + KeptDeliveries(dict, list, n)
      && dropped + |KeptDeliveries(dict, list, n)| == count + n
      && before <= parts && Tight(parts, |before|, ahead, maxRecords, maxBytes)
    }

    /** One more sample. */
    method FoldNext(list: seq<Sample>, i: nat, kept: Kept, ghost dict: Dictionary,
                    ghost total: seq<Delivery>, ghost count: nat, ghost before: seq<seq<Delivery>>)
      returns (ok: bool, rest: Kept)
      requires i < |list| && Valid() && UsesOk(dict, list, i, kept) && Folded(dict, list, i, taken, total, count, before)
      modifies `pending, `batchId, `handed, `dropped, `taken, `parts
      ensures if ok then Valid() && UsesOk(dict, list, i + 1, rest) && Folded(dict, list, i + 1, taken, total, count, before)
              else list[i].fingerprint in dict && Folded(dict, list, i, Ahead(ok, taken, dict, list, i), total, count, before)
    {
      ghost var start, last := parts, taken;
      KeptGrows(total, dict, list, i);
      ok, rest := TakeSample(list, i, kept, dict);
      if list[i].fingerprint in dict {
        TightGrows(start, last, Delivery(list[i], dict[list[i].fingerprint]), |before|, maxRecords, maxBytes,
                   parts, Ahead(ok, taken, dict, list, i));
      }
    }

    /** Every kept sample joins in order, every other is counted as dropped. */
    method FoldSamples(list: seq<Sample>, uses: Kept, ghost dict: Dictionary) returns (ok: bool, ghost n: nat)
      requires Valid() && UsesOk(dict, list, 0, uses)
      modifies `pending, `batchId, `handed, `dropped, `taken, `parts
      ensures n <= |list| && (ok ==> n == |list| && Valid()) && (ok || (n < |list| && list[n].fingerprint in dict))
      ensures Folded(dict, list, n, Ahead(ok, taken, dict, list, n), old(Total()), old(dropped), old(parts))
    {
      var kept := uses;
      ok, n := true, 0;
      for i := 0 to |list|
        invariant ok && n == i && Valid() && UsesOk(dict, list, i, kept)
        invariant Folded(dict, list, i, taken, old(Total()), old(dropped), old(parts))
      {
        ok, kept := FoldNext(list, i, kept, dict, old(Total()), old(dropped), old(parts));
        if !ok {
          return;
        }
        n := n + 1;
      }
    }

    /** The series of the scrape that pass, each with how many samples it has there. */
    method Prepare(result: ScrapeResult) returns (kept: Kept, ghost dict: Dictionary)
      modifies `keepCache
      ensures DecisionsStand(result.series, filterEmpty, keeps, old(keepCache), keepCache)
      ensures PassedWithLast(result.series, filterEmpty, keepCache, dict) && UsesOk(dict, result.samples, 0, kept)
    {
      kept := KeepSeries(result.series);
      dict := map fp | fp in kept :: kept[fp].0;
      kept := CountUses(result.samples, kept);
    }

    /** Fold one scrape result.  `dict` is the last entry of each series kept.  On a failed
        connection the samples from `n` on are lost with the agent.  Every batch handed
        over on the way had no room for the delivery after it. */
    method IngestMetrics(result: ScrapeResult) returns (ok: bool, ghost dict: Dictionary, ghost n: nat)
      requires Valid()
      modifies this
      ensures DecisionsStand(result.series, filterEmpty, keeps, old(keepCache), keepCache)
      ensures PassedWithLast(result.series, filterEmpty, keepCache, dict)
      ensures Sent() && n <= |result.samples| && (ok ==> n == |result.samples| && Valid())
      ensures Total() == old(Total()) + KeptDeliveries(dict, result.samples, n)
      ensures dropped + |KeptDeliveries(dict, result.samples, n)| == old(dropped) + n
      ensures ok || (n < |result.samples| && result.samples[n].fingerprint in dict)
      ensures old(parts) <= parts && Tight(parts, |old(parts)|, Ahead(ok, taken, dict, result.samples, n), maxRecords, maxBytes)
    {
      var kept: Kept;
      kept, dict := Prepare(result);
      ok, n := FoldSamples(result.samples, kept, dict);
    }
  }

  /** `dict` holds exactly the series of the scrape that pass the allow-list, each with its last entry. */
  ghost predicate PassedWithLast(series: seq<Series>, filterEmpty: bool, cache: map<Fingerprint, bool>, dict: Dictionary) {
    && (forall fp :: fp in dict <==> Decided(filterEmpty, cache, fp) && Mentions(series, |series|, fp))
    && forall fp | fp in dict :: dict[fp].fingerprint == fp && IsLast(series, |series|, dict[fp])
  }

  /** The deliveries after the last batch handed over: the pending ones, or the one that
      was being folded when the connection failed. */
  function Ahead(ok: bool, taken: seq<Delivery>, dict: Dictionary, list: seq<Sample>, n: nat): seq<Delivery>
    requires ok || (n < |list| && list[n].fingerprint in dict)
  {
    if ok then taken else [Delivery(list[n], dict[list[n].fingerprint])]
  }

  /** The cache after deciding one series. */
  function NextCache(filterEmpty: bool, keeps: seq<Label> -> bool, cache: map<Fingerprint, bool>, entry: Series): map<Fingerprint, bool> {
    if filterEmpty || entry.fingerprint in cache then cache else cache[entry.fingerprint := keeps(entry.labels)]
  }

  /** The first `n` series are sorted into kept and not, and the cache has their decisions. */
  ghost predicate ScanOk(series: seq<Series>, n: nat, filterEmpty: bool, keeps: seq<Label> -> bool,
                         before: map<Fingerprint, bool>, cache: map<Fingerprint, bool>, kept: Kept)
    requires n <= |series|
  {
    && KeptOk(series, n, filterEmpty, cache, kept)
    && if filterEmpty then cache == before else CacheOk(series, n, keeps, before, cache)
  }

  /** What was decided stays decided; a new fingerprint is decided on the labels it first came with. */
  ghost predicate DecisionsStand(
    series: seq<Series>, filterEmpty: bool, keeps: seq<Label> -> bool, before: map<Fingerprint, bool>, cache: map<Fingerprint, bool>)
  {
    if filterEmpty then cache == before else CacheOk(series, |series|, keeps, before, cache)
  }

  lemma ScanStep(series: seq<Series>, n: nat, filterEmpty: bool, keeps: seq<Label> -> bool,
                 before: map<Fingerprint, bool>, cache: map<Fingerprint, bool>, kept: Kept)
    requires n < |series| && ScanOk(series, n, filterEmpty, keeps, before, cache, kept)
    ensures var fp, next := series[n].fingerprint, NextCache(filterEmpty, keeps, cache, series[n]);
      ScanOk(series, n + 1, filterEmpty, keeps, before, next,
             if Decided(filterEmpty, next, fp) then kept[fp := (series[n], 0)] else kept)
  {
    if !filterEmpty {
      CacheStep(series, n, keeps, before, cache);
    }
    KeptStep(series, n, filterEmpty, cache, NextCache(filterEmpty, keeps, cache, series[n]), kept);
  }

  /** Each kept entry knows how many of its samples are still to come, and none is missing that has some. */
  ghost predicate UsesOk(dict: Dictionary, samples: seq<Sample>, i: nat, kept: Kept)
    requires i <= |samples|
  {
    && (forall fp | fp in dict :: dict[fp].fingerprint == fp)
    && (forall fp | fp in kept :: fp in dict && kept[fp] == (dict[fp], CountFrom(samples, i, fp)))
    && forall fp | fp in dict && CountFrom(samples, i, fp) > 0 :: fp in kept
  }

  lemma UsesStep(dict: Dictionary, samples: seq<Sample>, i: nat, kept: Kept)
    requires i < |samples| && UsesOk(dict, samples, i, kept)
    ensures var fp := samples[i].fingerprint;
      && (fp in kept <==> fp in dict)
      && (fp in kept ==> kept[fp].1 > 0 && forall rest | OneUseTaken(kept, fp, rest) :: UsesOk(dict, samples, i + 1, rest))
      && (fp !in kept ==> UsesOk(dict, samples, i + 1, kept))
  {
    var fp := samples[i].fingerprint;
    assert CountFrom(samples, i, fp) == 1 + CountFrom(samples, i + 1, fp);
    assert forall other | other != fp :: CountFrom(samples, i, other) == CountFrom(samples, i + 1, other);
  }

  /** Take one use of a kept series; its entry goes with the last one if the batch still needs it. */
  method TakeUse(kept: Kept, fp: Fingerprint, present: bool) returns (rest: Kept)
    requires fp in kept && kept[fp].1 > 0
    ensures OneUseTaken(kept, fp, rest) && (fp !in rest <==> !present && kept[fp].1 == 1)
  {
    var usesLeft := kept[fp].1 - 1;
    rest := kept[fp := (kept[fp].0, usesLeft)];
    if !present && usesLeft == 0 {
      rest := rest - {fp};
    }
  }

  /** How many samples of each kept series are to come. */
  method CountUses(samples: seq<Sample>, kept: Kept) returns (counted: Kept)
    requires forall fp | fp in kept :: kept[fp].1 == 0
    ensures counted.Keys == kept.Keys
    ensures forall fp | fp in kept :: counted[fp] == (kept[fp].0, CountFrom(samples, 0, fp))
  {
    counted := kept;
    for i := 0 to |samples|
      invariant counted.Keys == kept.Keys
      invariant forall fp | fp in kept ::
        counted[fp].0 == kept[fp].0 && counted[fp].1 + CountFrom(samples, i, fp) == CountFrom(samples, 0, fp)
    {
      var fp := samples[i].fingerprint;
      if fp in counted {
        counted := counted[fp := (counted[fp].0, counted[fp].1 + 1)];
      }
    }
  }

  lemma Associates<T>(a: seq<T>, b: seq<T>, c: seq<T>)
    ensures a + (b + c) == a + b + c
  {
  }

  /** One more sample, after what was there before. */
  lemma KeptGrows(total: seq<Delivery>, dict: Dictionary, list: seq<Sample>, i: nat)
    requires i < |list|
    ensures var fp := list[i].fingerprint;
      total + KeptDeliveries(dict, list, i + 1) ==
        total + KeptDeliveries(dict, list, i) + if fp in dict then [Delivery(list[i], dict[fp])] else []
  {
  }

  /** One use of `fp` is gone; the entry may be dropped only with its last use. */
  ghost predicate OneUseTaken(kept: Kept, fp: Fingerprint, rest: Kept)
    requires fp in kept
  {
    && (if fp in rest then rest[fp].0 == kept[fp].0 && rest[fp].1 + 1 == kept[fp].1 else kept[fp].1 == 1)
    && forall other | other != fp :: (other in rest <==> other in kept) && (other in rest ==> rest[other] == kept[other])
  }
}
