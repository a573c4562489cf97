/** The per-message loop of cmd/processor/main.go: split a wave payload into
    little-endian words, feed them to the detector in order, and publish one
    ParamMsg for every detected beat. */
module Processor {
  import opened LittleEndian
  import opened HeartRate

  /** The published rate event (its JSON encoding is not modelled). */
  datatype ParamMsg = ParamMsg(subject: string, ts: int, hr: int)

  /** Go's Time.UnixMilli on a nanosecond instant. Go floors the seconds and
      keeps the nanoseconds non-negative, so this is floor division, which is
      what Dafny's `/` computes. */
  function UnixMilli(ns: int): int {
    ns / 1_000_000
  }

  /** The sample values of a payload's words. */
  function Values(ws: seq<Word>, valueOf: Word -> real): seq<real> {
    seq(|ws|, i requires 0 <= i < |ws| => valueOf(ws[i]))
  }

  /** A detector together with the messages published so far. */
  datatype Run = Run(detector: Detector, published: seq<ParamMsg>)

  /** One iteration of the handler's loop: Process the sample and publish a
      ParamMsg if it detected a beat. */
  function Feed(r: Run, value: real, t: int, subject: string): Run {
    var o := Step(r.detector, value, t);
    Run(o.next, if o.ok then r.published + [ParamMsg(subject, UnixMilli(t), o.bpm)] else r.published)
  }

  /** The detector state after, and the messages published for, samples
      `values` read at instants `clock`, one Step per sample in order. */
  function Detect(d: Detector, values: seq<real>, clock: seq<int>, subject: string): Run
    requires |values| == |clock|
    decreases |values|
  {
    if values == [] then Run(d, [])
    else
      var n := |values| - 1;
      Feed(Detect(d, values[..n], clock[..n], subject), values[n], clock[n], subject)
  }

  /** Detect on one more sample at the end is one more Feed. */
  lemma DetectSnoc(d: Detector, values: seq<real>, clock: seq<int>, v: real, t: int, subject: string)
    requires |values| == |clock|
    ensures Detect(d, values + [v], clock + [t], subject) == Feed(Detect(d, values, clock, subject), v, t, subject)
  {
    assert (values + [v])[..|values|] == values && (clock + [t])[..|clock|] == clock;
  }

  /** Feed publishes the message of a Process call exactly when it returns ok. */
  lemma FeedOfOutcome(r: Run, next: Detector, bpm: int, ok: bool, value: real, t: int, subject: string)
    requires Outcome(next, bpm, ok) == Step(r.detector, value, t)
    ensures Feed(r, value, t, subject)
      == Run(next, if ok then r.published + [ParamMsg(subject, UnixMilli(t), bpm)] else r.published)
  {
  }

  /** A prefix one element longer. */
  lemma TakeOneMore<T>(s: seq<T>, i: nat)
    requires i < |s|
    ensures s[..i + 1] == s[..i] + [s[i]]
  {
  }

  /** Splitting off the last element of a non-empty suffix. */
  lemma SplitLast<T>(a: seq<T>, b: seq<T>)
    requires b != []
    ensures a + b == (a + b[..|b| - 1]) + [b[|b| - 1]]
    ensures b == b[..|b| - 1] + [b[|b| - 1]]
  {
  }

  /** Feeding a sample depends only on the detector, and extends whatever
      was published before. */
  lemma FeedExtends(r: Run, earlier: seq<ParamMsg>, value: real, t: int, subject: string)
    ensures Feed(Run(r.detector, earlier + r.published), value, t, subject)
      == Run(Feed(r, value, t, subject).detector, earlier + Feed(r, value, t, subject).published)
  {
    var m := ParamMsg(subject, UnixMilli(t), Step(r.detector, value, t).bpm);
    assert (earlier + r.published) + [m] == earlier + (r.published + [m]);
  }

  /** Running the detector never changes its threshold or refractory period,
      and after any sample it is initialized. */
  lemma {:induction false} DetectKeepsConfiguration(d: Detector, values: seq<real>, clock: seq<int>, subject: string)
    requires |values| == |clock|
    ensures var e := Detect(d, values, clock, subject).detector;
      e.threshold == d.threshold && e.refractory == d.refractory &&
      (values != [] ==> e.initialized) && (values == [] ==> e == d)
    decreases |values|
  {
    if values != [] {
      var n := |values| - 1;
      DetectKeepsConfiguration(d, values[..n], clock[..n], subject);
    }
  }

  /** At most one message per sample, every one on the output subject, and
      with the default refractory period every published rate is in [0, 300). */
  lemma {:induction false} DetectPublishesRates(d: Detector, values: seq<real>, clock: seq<int>, subject: string)
    requires |values| == |clock|
    requires d.refractory >= DefaultRefractory
    ensures var published := Detect(d, values, clock, subject).published;
      |published| <= |values| &&
      forall m :: m in published ==> m.subject == subject && 0 <= m.hr < 300
    decreases |values|
  {
    if values != [] {
      var n := |values| - 1;
      DetectPublishesRates(d, values[..n], clock[..n], subject);
      DetectKeepsConfiguration(d, values[..n], clock[..n], subject);
      var before := Detect(d, values[..n], clock[..n], subject).detector;
      EmittedBpmInRange(before, values[n], clock[n]);
    }
  }

  /** The detector carries its state across messages: handling two payloads
      one after the other is handling their samples in one run. */
  lemma {:induction false} DetectConcat(d: Detector, a: seq<real>, ca: seq<int>, b: seq<real>, cb: seq<int>, subject: string)
    requires |a| == |ca| && |b| == |cb|
    ensures var first := Detect(d, a, ca, subject);
      var second := Detect(first.detector, b, cb, subject);
      Detect(d, a + b, ca + cb, subject) == Run(second.detector, first.published + second.published)
    decreases |b|
  {
    var first := Detect(d, a, ca, subject);
    if b == [] {
      assert a + b == a && ca + cb == ca;
      assert first.published + [] == first.published;
    } else {
      var n := |b| - 1;
      SplitLast(a, b);
      SplitLast(ca, cb);
      DetectConcat(d, a, ca, b[..n], cb[..n], subject);
      DetectSnoc(d, a + b[..n], ca + cb[..n], b[n], cb[n], subject);
      DetectSnoc(first.detector, b[..n], cb[..n], b[n], cb[n], subject);
      FeedExtends(Detect(first.detector, b[..n], cb[..n], subject), first.published, b[n], cb[n], subject);
    }
  }

  /** A single sample on a fresh detector publishes nothing. */
  lemma FirstSamplePublishesNothing(value: real, t: int, subject: string)
    ensures Detect(Fresh, [value], [t], subject).published == []
  {
    assert [value][..0] == [];
    assert [t][..0] == [];
  }

  /** The subscription handler for one wave message: `clock[i]` is the
      instant read for sample i, and `valueOf` reinterprets a word as the
      sample value the detector compares. */
  method HandleWave(detector: HRDetector, data: seq<Byte>, clock: seq<int>, subject: string, valueOf: Word -> real)
    returns (published: seq<ParamMsg>)
    requires |clock| == |data| / 4
    modifies detector
    ensures Run(detector.State(), published) == Detect(old(detector.State()), Values(Words(data), valueOf), clock, subject)
  {
    var samples := |data| / 4;
    ghost var start := detector.State();
    ghost var values := Values(Words(data), valueOf);
    published := [];
    var i := 0;
    while i < samples
      invariant 0 <= i <= samples
      invariant Run(detector.State(), published) == Detect(start, values[..i], clock[..i], subject)
    {
      var bits := Uint32At(data, i * 4);
      var v := valueOf(bits);
      var ts := clock[i];
      assert v == values[i] by {
        assert bits == Words(data)[i];
      }
      TakeOneMore(values, i);
      TakeOneMore(clock, i);
      DetectSnoc(start, values[..i], clock[..i], v, ts, subject);
      ghost var before := Run(detector.State(), published);
      var bpm, ok := detector.Process(v, ts);
      FeedOfOutcome(before, detector.State(), bpm, ok, v, ts, subject);
      if ok {
        published := published + [ParamMsg(subject, UnixMilli(ts), bpm)];
      }
      i := i + 1;
    }
    assert values[..samples] == values && clock[..samples] == clock;
  }
}
