/** The online heart-rate detector of internal/analysis/hr.go.

    Sample values are ordered reals (the float32 comparisons of the source;
    NaN is not modelled). Instants are integers counting nanoseconds, and the
    detector's "no peak yet" (Go's zero time.Time) is `None`. */
module HeartRate {
  import opened Wrappers

  /** The constants NewHRDetector installs. */
  const DefaultThreshold: real := 0.6
  const DefaultRefractory: int := 200_000_000  // 200 ms

  const NanosPerMinute: int := 60_000_000_000

  /** The detector's whole state, as a value. */
  datatype Detector = Detector(
    threshold: real,
    lastPeakTime: Option<int>,
    refractory: nat,
    lastValue: real,
    initialized: bool)

  /** A freshly constructed detector: default constants, zero values elsewhere. */
  const Fresh := Detector(DefaultThreshold, None, DefaultRefractory, 0.0, false)

  /** The previous sample was below the threshold and this one is at or above it. */
  predicate RisingEdge(d: Detector, value: real) {
    d.lastValue < d.threshold && value >= d.threshold
  }

  /** The refractory gate: with no previous peak, `ts.Sub(zero time)` saturates
      to the largest duration, so the gate is always open. */
  predicate PastRefractory(d: Detector, ts: int) {
    match d.lastPeakTime
    case None => true
    case Some(p) => ts - p > d.refractory
  }

  /** Beats per minute for an RR interval of `rr` nanoseconds: the truncation
      of 60 / (rr in seconds). */
  function Bpm(rr: int): int
    requires rr > 0
  {
    NanosPerMinute / rr
  }

  /** What one call to Process leaves behind and returns. */
  datatype Outcome = Outcome(next: Detector, bpm: int, ok: bool)

  /** One call to Process: the specification the class method is proved against. */
  function Step(d: Detector, value: real, ts: int): (r: Outcome)
    ensures r.next.threshold == d.threshold && r.next.refractory == d.refractory
    ensures r.next.initialized && r.next.lastValue == value
    ensures !r.ok ==> r.bpm == 0
  {
    if !d.initialized then
      Outcome(d.(initialized := true, lastValue := value), 0, false)
    else if RisingEdge(d, value) && PastRefractory(d, ts) then
      match d.lastPeakTime
      case Some(p) =>
        Outcome(d.(lastPeakTime := Some(ts), lastValue := value), Bpm(ts - p), true)
      case None =>
        Outcome(d.(lastPeakTime := Some(ts), lastValue := value), 0, false)
    else
      Outcome(d.(lastValue := value), 0, false)
  }

  /** The first call only records the baseline value and never emits. */
  lemma FirstCallNeverEmits(d: Detector, value: real, ts: int)
    requires !d.initialized
    ensures !Step(d, value, ts).ok
    ensures Step(d, value, ts).next == d.(initialized := true, lastValue := value)
  {
  }

  /** An emission happens only on a rising edge of an initialized detector. */
  lemma EmitsOnlyOnRisingEdge(d: Detector, value: real, ts: int)
    requires Step(d, value, ts).ok
    ensures d.initialized && RisingEdge(d, value)
  {
  }

  /** Nothing but a rising edge can move the last peak time. */
  lemma PeakOnlyOnRisingEdge(d: Detector, value: real, ts: int)
    requires Step(d, value, ts).next.lastPeakTime != d.lastPeakTime
    ensures d.initialized && RisingEdge(d, value) && PastRefractory(d, ts)
    ensures Step(d, value, ts).next.lastPeakTime == Some(ts)
  {
  }

  /** A rising edge inside the refractory period is ignored: no emission and
      the last peak time stays. */
  lemma RefractoryCrossingIgnored(d: Detector, value: real, ts: int, p: int)
    requires d.initialized && RisingEdge(d, value)
    requires d.lastPeakTime == Some(p) && ts - p <= d.refractory
    ensures !Step(d, value, ts).ok
    ensures Step(d, value, ts).next.lastPeakTime == Some(p)
  {
  }

  /** The first qualifying peak arms the detector without emitting. */
  lemma FirstPeakArms(d: Detector, value: real, ts: int)
    requires d.initialized && RisingEdge(d, value) && d.lastPeakTime == None
    ensures !Step(d, value, ts).ok
    ensures Step(d, value, ts).next.lastPeakTime == Some(ts)
  {
  }

  /** A later qualifying peak emits the rate of the interval since the last
      peak and becomes the new last peak. */
  lemma LaterPeakEmits(d: Detector, value: real, ts: int, p: int)
    requires d.initialized && RisingEdge(d, value)
    requires d.lastPeakTime == Some(p) && ts - p > d.refractory
    ensures Step(d, value, ts) == Outcome(d.(lastPeakTime := Some(ts), lastValue := value), Bpm(ts - p), true)
  {
  }

  /** With at least the default 200 ms refractory period every emitted rate is
      below 300 beats per minute (and never negative). */
  lemma EmittedBpmInRange(d: Detector, value: real, ts: int)
    requires d.refractory >= DefaultRefractory
    ensures Step(d, value, ts).ok ==> 0 <= Step(d, value, ts).bpm < 300
  {
  }

  /** Upward crossings 500 ms apart, after a baseline sample, give 120 bpm. */
  lemma HalfSecondBeatsGive120()
    ensures
      var s0 := Step(Fresh, 0.0, 0);
      var s1 := Step(s0.next, 1.0, 0);
      var s2 := Step(s1.next, 0.0, 250_000_000);
      var s3 := Step(s2.next, 1.0, 500_000_000);
      !s0.ok && !s1.ok && !s2.ok && s3.ok && s3.bpm == 120
  {
  }

  /** Go's HRDetector, updated in place by Process. */
  class HRDetector {
    var threshold: real
    var lastPeakTime: Option<int>
    var refractory: nat
    var lastValue: real
    var initialized: bool

    /** The fields, read as a Detector value. */
    function State(): Detector
      reads this
    {
      Detector(threshold, lastPeakTime, refractory, lastValue, initialized)
    }

    /** NewHRDetector. */
    constructor ()
      ensures State() == Fresh
    {
      threshold := DefaultThreshold;
      lastPeakTime := None;
      refractory := DefaultRefractory;
      lastValue := 0.0;
      initialized := false;
    }

    /** Feeds one sample taken at instant `ts`; `ok` says whether a new beat
        was detected, and `bpm` is its rate. */
    method Process(value: real, ts: int) returns (bpm: int, ok: bool)
      modifies this
      ensures Outcome(State(), bpm, ok) == Step(old(State()), value, ts)
    {
      if !initialized {
        initialized := true;
        lastValue := value;
        return 0, false;
      }

      if lastValue < threshold && value >= threshold {
        var open := match lastPeakTime
          case None => true
          case Some(p) => ts - p > refractory;
        if open {
          if lastPeakTime.Some? {
            var rr := ts - lastPeakTime.value;
            bpm := NanosPerMinute / rr;
            lastPeakTime := Some(ts);
            lastValue := value;
            return bpm, true;
          }
          lastPeakTime := Some(ts);
        }
      }

      lastValue := value;
      return 0, false;
    }
  }
}
