/**
 The velocity calculator: a ring of the last movement samples, and a sum over the recent
 ones that telescopes into a difference quotient.
 */
module AxisVelocitySpec {

  const MAX_SAMPLES := 50
  const MIN_SAMPLES_NEEDED := 2
  const AGE_OLDEST_SAMPLE := 100

  /** `position` is where the tracked position stood after the movement; the code does not store it. */
  datatype Sample = Sample(mov: real, time: int)

  /** A 64-bit difference assigned to a 32-bit int. */
  function ToInt32(d: int): int {
    (d + 0x8000_0000) % 0x1_0000_0000 - 0x8000_0000
  }

  datatype Sums = Sums(distance: real, time: int)

  predicate Recent(s: Sample, now: int) {
    now - s.time <= AGE_OLDEST_SAMPLE
  }

  /** What the loop has summed up after looking at samples 1 to n - 1. */
  function SumRecent(samples: seq<Sample>, now: int, n: nat): Sums
    requires 1 <= n <= |samples|
  {
    if n == 1 then Sums(0.0, 0)
    else
      var before := SumRecent(samples, now, n - 1);
      var s := samples[n - 1];
      if Recent(s, now) then
        Sums(before.distance + s.mov, before.time + ToInt32(s.time - samples[n - 2].time))
      else before
  }

  /** The quotient is undefined when no time passed. */
  datatype Velocity = Undefined | Value(v: real)

  function Quotient(s: Sums): Velocity {
    if s.time == 0 then Undefined else Value(s.distance / s.time as real)
  }

  // ---------- what it means ----------

  predicate Monotone(samples: seq<Sample>) {
    forall i, j :: 0 <= i <= j < |samples| ==> samples[i].time <= samples[j].time
  }

  /** `positions[i]` is the tracked position when sample i was taken. */
  predicate Tracks(samples: seq<Sample>, positions: seq<real>) {
    && |positions| == |samples|
    && forall i :: 1 <= i < |samples| ==> samples[i].mov == positions[i] - positions[i - 1]
  }

  /** The first sample after the oldest that is recent enough. */
  function FirstRecent(samples: seq<Sample>, now: int, from: nat): (i: nat)
    requires from <= |samples|
    ensures from <= i <= |samples|
    ensures forall k :: from <= k < i ==> !Recent(samples[k], now)
    ensures i < |samples| ==> Recent(samples[i], now)
    decreases |samples| - from
  {
    if from == |samples| || Recent(samples[from], now) then from else FirstRecent(samples, now, from + 1)
  }

  lemma ToInt32Exact(d: int)
    ensures ToInt32(d) == d <==> -0x8000_0000 <= d < 0x8000_0000
  {
  }

  /** The sample the sums reach back to: the one just before the first recent one. */
  function BaseIndex(samples: seq<Sample>, now: int): (j: int)
    requires samples != []
    ensures 0 <= j < |samples|
  {
    FirstRecent(samples, now, 1) - 1
  }

  /** The first step that is summed up; the only one that may be long. */
  function FirstGap(samples: seq<Sample>, now: int): int
    requires samples != [] && BaseIndex(samples, now) + 1 < |samples|
  {
    var j := BaseIndex(samples, now);
    samples[j + 1].time - samples[j].time
  }

  /** The sums up to a recent sample: the distances telescope, and so do the times but for the first step. */
  lemma {:induction false} SumTelescopes(samples: seq<Sample>, positions: seq<real>, now: int, n: nat)
    requires 1 <= n <= |samples| && Monotone(samples) && Tracks(samples, positions)
    requires now == samples[|samples| - 1].time
    ensures var j := BaseIndex(samples, now);
            SumRecent(samples, now, n)
            == if n <= j + 1 then Sums(0.0, 0)
               else Sums(positions[n - 1] - positions[j],
                         samples[n - 1].time - samples[j + 1].time + ToInt32(FirstGap(samples, now)))
  {
    if n > 1 {
      SumTelescopes(samples, positions, now, n - 1);
      var j := BaseIndex(samples, now);
      assert Recent(samples[n - 1], now) <==> n > j + 1;
      if n > j + 2 {
        assert 0 <= samples[n - 1].time - samples[n - 2].time <= AGE_OLDEST_SAMPLE;
        ToInt32Exact(samples[n - 1].time - samples[n - 2].time);
      }
    }
  }

  /** The newest sample is recent, so with two samples there is a first step. */
  lemma NewestIsRecent(samples: seq<Sample>)
    requires |samples| >= 2
    ensures var now := samples[|samples| - 1].time;
            BaseIndex(samples, now) + 1 < |samples| && Recent(samples[BaseIndex(samples, now) + 1], now)
  {
    assert Recent(samples[|samples| - 1], samples[|samples| - 1].time);
  }

  /** What the two sums come to over all samples. */
  lemma SumMeaning(samples: seq<Sample>, positions: seq<real>)
    requires |samples| >= 2 && Monotone(samples) && Tracks(samples, positions)
    ensures var n := |samples|;
            var now := samples[n - 1].time;
            var j := BaseIndex(samples, now);
            && j + 1 < n && 0 <= now - samples[j + 1].time <= AGE_OLDEST_SAMPLE
            && SumRecent(samples, now, n)
               == Sums(positions[n - 1] - positions[j], now - samples[j + 1].time + ToInt32(FirstGap(samples, now)))
  {
    NewestIsRecent(samples);
    SumTelescopes(samples, positions, samples[|samples| - 1].time, |samples|);
  }

  /** The time summed up is the time that passed exactly when the first step fits a 32-bit int. */
  lemma TimeExactIff(samples: seq<Sample>, positions: seq<real>)
    requires |samples| >= 2 && Monotone(samples) && Tracks(samples, positions)
    ensures var now := samples[|samples| - 1].time;
            && BaseIndex(samples, now) + 1 < |samples|
            && (SumRecent(samples, now, |samples|).time == now - samples[BaseIndex(samples, now)].time
                <==> FirstGap(samples, now) < 0x8000_0000)
  {
    SumMeaning(samples, positions);
    ToInt32Exact(FirstGap(samples, samples[|samples| - 1].time));
  }

  /** The difference quotient from the sample just before the first recent one to the newest. */
  function DifferenceQuotient(samples: seq<Sample>, positions: seq<real>): Velocity
    requires |samples| >= 2 && |positions| == |samples|
  {
    var n := |samples|;
    var j := BaseIndex(samples, samples[n - 1].time);
    if samples[n - 1].time == samples[j].time then Undefined
    else Value((positions[n - 1] - positions[j]) / (samples[n - 1].time - samples[j].time) as real)
  }

  /** What the code computes from the stored samples. */
  function ComputedVelocity(samples: seq<Sample>): Velocity
    requires |samples| >= 2
  {
    Quotient(SumRecent(samples, samples[|samples| - 1].time, |samples|))
  }

  /** The first step fits a 32-bit int, or nothing moved and the mistaken time is not zero by accident. */
  predicate QuotientExact(samples: seq<Sample>, positions: seq<real>)
    requires |samples| >= 2 && |positions| == |samples|
  {
    var now := samples[|samples| - 1].time;
    var j := BaseIndex(samples, now);
    || (j + 1 < |samples| && FirstGap(samples, now) < 0x8000_0000)
    || (positions[|samples| - 1] == positions[j] && (now - samples[j].time) % 0x1_0000_0000 != 0)
  }

  lemma EqualQuotients(a: real, s: int, t: int)
    requires s != 0 && t != 0 && s != t
    ensures a / s as real == a / t as real <==> a == 0.0
  {
    var x, y := s as real, t as real;
    if a / x == a / y {
      assert a * y == a / x * x * y == a / y * x * y == a * x;
      assert a * (y - x) == 0.0;
    }
  }

  /** The sum of the times vanishes exactly when the time that passed is a multiple of 2^32. */
  lemma TimeVanishesIff(recent: int, gap: int)
    requires 0 <= recent <= AGE_OLDEST_SAMPLE && gap >= 0
    ensures recent + ToInt32(gap) == 0 <==> (recent + gap) % 0x1_0000_0000 == 0
  {
    var t := recent + ToInt32(gap);
    assert (t - (recent + gap)) % 0x1_0000_0000 == 0;
    assert t % 0x1_0000_0000 == (recent + gap) % 0x1_0000_0000;
    assert -0x8000_0000 <= t < 0x8000_0000 + 100;
  }

  /**
   The velocity is undefined exactly when the time since the sample just before the recent
   ones is a multiple of 2^32 milliseconds, zero included.
   */
  lemma UndefinedIff(samples: seq<Sample>, positions: seq<real>)
    requires |samples| >= 2 && Monotone(samples) && Tracks(samples, positions)
    ensures var now := samples[|samples| - 1].time;
            ComputedVelocity(samples) == Undefined
            <==> (now - samples[BaseIndex(samples, now)].time) % 0x1_0000_0000 == 0
  {
    var now := samples[|samples| - 1].time;
    SumMeaning(samples, positions);
    TimeVanishesIff(now - samples[BaseIndex(samples, now) + 1].time, FirstGap(samples, now));
  }

  /** For times that never run backwards: the velocity is the difference quotient exactly under this condition. */
  lemma VelocityMeaning(samples: seq<Sample>, positions: seq<real>)
    requires |samples| >= 2 && Monotone(samples) && Tracks(samples, positions)
    ensures ComputedVelocity(samples) == DifferenceQuotient(samples, positions) <==> QuotientExact(samples, positions)
  {
    var n := |samples|;
    var now := samples[n - 1].time;
    var j := BaseIndex(samples, now);
    SumMeaning(samples, positions);
    UndefinedIff(samples, positions);
    TimeExactIff(samples, positions);
    var s, t := SumRecent(samples, now, n).time, now - samples[j].time;
    if s != 0 && t != 0 && s != t {
      EqualQuotients(positions[n - 1] - positions[j], s, t);
    }
  }

  /** The base sample is the newest one more than 100 milliseconds old, or the oldest of all. */
  lemma BaseIsLastOld(samples: seq<Sample>)
    requires |samples| >= 2 && Monotone(samples)
    ensures var now := samples[|samples| - 1].time;
            var j := BaseIndex(samples, now);
            && (forall k :: j < k < |samples| ==> now - samples[k].time <= 100)
            && (j > 0 ==> now - samples[j].time > 100)
  {
    NewestIsRecent(samples);
  }

  /** Two samples 2^32 milliseconds apart: 49 days passed and no time is summed up. */
  lemma LongGapUndefined()
    ensures var samples := [Sample(0.0, 0), Sample(1.0, 0x1_0000_0000)];
            ComputedVelocity(samples) == Undefined != DifferenceQuotient(samples, [0.0, 1.0])
  {
    var samples := [Sample(0.0, 0), Sample(1.0, 0x1_0000_0000)];
    UndefinedIff(samples, [0.0, 1.0]);
  }

  // ---------- the ring ----------

  function Last<T>(samples: seq<T>, n: nat): seq<T> {
    if |samples| <= n then samples else samples[|samples| - n..]
  }

  /** How many samples lie between a read and a write index; -1 reads as empty. */
  function Count(read: int, write: nat): nat
    requires -1 <= read < MAX_SAMPLES && write < MAX_SAMPLES
  {
    if read == -1 then 0 else if write > read then write - read else MAX_SAMPLES - read + write
  }

  /** The slot `i` places after `read`. */
  function RingIndex(read: nat, i: nat): (r: nat)
    requires read < MAX_SAMPLES && i <= MAX_SAMPLES
    ensures r < MAX_SAMPLES && r == (read + i) % MAX_SAMPLES
  {
    if read + i < MAX_SAMPLES then read + i else read + i - MAX_SAMPLES
  }

  /** The `n` samples of a ring from `read` on. */
  function Unroll(ring: seq<Sample>, read: nat, n: nat): (s: seq<Sample>)
    requires |ring| == MAX_SAMPLES && read < MAX_SAMPLES && n <= MAX_SAMPLES
    ensures |s| == n
    ensures forall i :: 0 <= i < n ==> s[i] == ring[RingIndex(read, i)]
  {
    seq(n, i requires 0 <= i < n => ring[RingIndex(read, i)])
  }

  lemma PushNotFull(ring: seq<Sample>, read: nat, n: nat, x: Sample)
    requires |ring| == MAX_SAMPLES && read < MAX_SAMPLES && n < MAX_SAMPLES
    ensures Unroll(ring[RingIndex(read, n) := x], read, n + 1) == Unroll(ring, read, n) + [x]
  {
  }

  lemma PushFull(ring: seq<Sample>, read: nat, x: Sample)
    requires |ring| == MAX_SAMPLES && read < MAX_SAMPLES
    ensures Unroll(ring[read := x], RingIndex(read, 1), MAX_SAMPLES) == Unroll(ring, read, MAX_SAMPLES)[1..] + [x]
  {
    var s, t := Unroll(ring, read, MAX_SAMPLES), Unroll(ring[read := x], RingIndex(read, 1), MAX_SAMPLES);
    forall i | 0 <= i < MAX_SAMPLES ensures t[i] == (s[1..] + [x])[i] {
      assert RingIndex(RingIndex(read, 1), i) == if i + 1 < MAX_SAMPLES then RingIndex(read, i + 1) else read;
    }
  }

  lemma RecentTracks(history: seq<Sample>, positions: seq<real>)
    requires Tracks(history, positions)
    ensures |positions| == |history|
    ensures Tracks(Last(history, MAX_SAMPLES), Last(positions, MAX_SAMPLES))
  {
  }

  lemma LastPush(history: seq<Sample>, x: Sample)
    ensures var stored := Last(history, MAX_SAMPLES);
            Last(history + [x], MAX_SAMPLES) == (if |stored| == MAX_SAMPLES then stored[1..] else stored) + [x]
  {
  }
}

/** The calculator itself, over its circular array. */
module AxisVelocities {
  import opened AxisVelocitySpec

  class AxisVelocityCalculator {
    const samples: array<Sample>
    var samplesRead: int
    var samplesWrite: int
    var trackedPosition: real
    // every sample since the last reset, and where the position stood after each
    ghost var history: seq<Sample>
    ghost var positions: seq<real>

    ghost predicate Shape()
      reads this
    {
      && samples.Length == MAX_SAMPLES
      && -1 <= samplesRead < MAX_SAMPLES
      && 0 <= samplesWrite < MAX_SAMPLES
      && (samplesRead == -1 ==> samplesWrite == 0)
    }

    /** The stored samples, oldest first. */
    ghost function Stored(): (s: seq<Sample>)
      reads this, samples
      requires Shape()
      ensures |s| == Count(samplesRead, samplesWrite)
    {
      if samplesRead == -1 then [] else Unroll(samples[..], samplesRead, Count(samplesRead, samplesWrite))
    }

    ghost predicate Valid()
      reads this, samples
    {
      && Shape()
      && Stored() == Last(history, 50)
      && Tracks(history, positions)
      && (history != [] ==> positions[|positions| - 1] == trackedPosition)
    }

    constructor ()
      ensures Valid() && fresh(samples) && history == [] && trackedPosition == 0.0
    {
      samples := new Sample[MAX_SAMPLES](_ => Sample(0.0, 0));
      trackedPosition := 0.0;
      samplesRead, samplesWrite := -1, 0;
      history, positions := [], [];
    }

    method Reset()
      requires Valid()
      modifies this`samplesRead, this`samplesWrite, this`history, this`positions
      ensures Valid() && history == [] && trackedPosition == old(trackedPosition)
    {
      samplesRead := -1;
      samplesWrite := 0;
      history, positions := [], [];
    }

    method NumSamples() returns (n: nat)
      requires Valid()
      ensures n == |Last(history, 50)|
      ensures n == if |history| < 50 then |history| else 50
    {
      if samplesRead == -1 {
        n := 0;
      } else {
        if samplesWrite == 0 {
          n := MAX_SAMPLES - samplesRead;
        } else if samplesWrite == samplesRead {
          n := MAX_SAMPLES;
        } else if samplesWrite < samplesRead {
          n := (MAX_SAMPLES - samplesRead) + samplesWrite;
        } else {
          n := samplesWrite - samplesRead;
        }
      }
      assert n == |Stored()|;
    }

    /** `time` is what the time source says. */
    method ProcessMovement(movement: real, time: int)
      requires Valid()
      modifies this`samplesRead, this`samplesWrite, this`history, this`positions, samples
      ensures Shape() && Stored() == Last(history, 50)
      ensures history == old(history) + [Sample(movement, time)]
      ensures positions == old(positions) + [old(trackedPosition) + movement]
      ensures Tracks(history, positions) && trackedPosition == old(trackedPosition)
    {
      LastPush(history, Sample(movement, time));
      Store(Sample(movement, time));
      history := history + [Sample(movement, time)];
      positions := positions + [trackedPosition + movement];
    }

    /** Writes a sample into the ring, over the oldest one when it is full. */
    method Store(x: Sample)
      requires Shape()
      modifies this`samplesRead, this`samplesWrite, samples
      ensures Shape()
      ensures Stored() == (if |old(Stored())| == MAX_SAMPLES then old(Stored())[1..] else old(Stored())) + [x]
    {
      ghost var ring, stored := samples[..], Stored();
      if samplesRead == -1 {
        samplesRead := samplesWrite;
        PushNotFull(ring, samplesRead, 0, x);
      } else if samplesRead == samplesWrite {
        PushFull(ring, samplesRead, x);
        samplesRead := (samplesRead + 1) % MAX_SAMPLES;
      } else {
        PushNotFull(ring, samplesRead, |stored|, x);
      }
      samples[samplesWrite] := x;
      assert samples[..] == ring[samplesWrite := x];
      samplesWrite := (samplesWrite + 1) % MAX_SAMPLES;
    }

    method SetTrackedPosition(newPosition: real, time: int)
      requires Valid()
      modifies this, samples
      ensures Valid() && trackedPosition == newPosition
      ensures history == old(history) + [Sample(newPosition - old(trackedPosition), time)]
      ensures positions == old(positions) + [newPosition]
    {
      ProcessMovement(newPosition - trackedPosition, time);
      if newPosition != trackedPosition {
        trackedPosition := newPosition;
      }
    }

    method UpdateIdleTime(time: int)
      requires Valid()
      modifies this`samplesRead, this`samplesWrite, this`history, this`positions, samples
      ensures Valid() && trackedPosition == old(trackedPosition)
      ensures history == old(history) + [Sample(0.0, time)]
      ensures positions == old(positions) + [trackedPosition]
    {
      ProcessMovement(0.0, time);
    }

    method Calculate(time: int) returns (velocity: Velocity)
      requires Valid()
      modifies this`samplesRead, this`samplesWrite, this`history, this`positions, samples
      ensures Valid() && trackedPosition == old(trackedPosition)
      ensures if |old(history)| < 2 then history == old(history) && velocity == Value(0.0)
              else
                && history == old(history) + [Sample(0.0, time)]
                && var stored, places := Last(history, 50), Last(positions, 50);
                   && |stored| >= 2 && |places| == |stored| && stored[|stored| - 1].time == time
                   && velocity == ComputedVelocity(stored)
                   && (Monotone(stored) ==>
                         && (velocity == DifferenceQuotient(stored, places) <==> QuotientExact(stored, places))
                         && (velocity == Undefined
                             <==> (time - stored[BaseIndex(stored, time)].time) % 0x1_0000_0000 == 0))
    {
      hide Monotone, Tracks, DifferenceQuotient, QuotientExact, SumRecent, FirstRecent, BaseIndex;
      var n := NumSamples();
      if n < MIN_SAMPLES_NEEDED {
        return Value(0.0);
      }
      UpdateIdleTime(time);
      ghost var stored := Stored();
      var lastIndex := if samplesWrite == 0 then MAX_SAMPLES - 1 else samplesWrite - 1;
      assert lastIndex == RingIndex(samplesRead, |stored| - 1);
      assert stored[|stored| - 1] == Sample(0.0, time);
      var totalDistance, totalTime := SumSamples(samples[lastIndex].time);
      RecentTracks(history, positions);
      if Monotone(stored) {
        VelocityMeaning(stored, Last(positions, MAX_SAMPLES));
        UndefinedIff(stored, Last(positions, MAX_SAMPLES));
      }
      velocity := if totalTime == 0 then Undefined else Value(totalDistance / totalTime as real);
    }

    /** The loop over the ring, from the second oldest sample to the newest. */
    method SumSamples(currTime: int) returns (totalDistance: real, totalTime: int)
      requires Shape() && |Stored()| >= 2
      ensures Sums(totalDistance, totalTime) == SumRecent(Stored(), currTime, |Stored()|)
    {
      ghost var stored := Stored();
      totalTime, totalDistance := 0, 0.0;
      var sampleIndex := (samplesRead + 1) % MAX_SAMPLES;
      assert stored[0] == samples[RingIndex(samplesRead, 0)];
      var previousTime := samples[samplesRead].time;
      ghost var i := 1;
      while sampleIndex != samplesWrite
        invariant 1 <= i <= |stored| && sampleIndex == RingIndex(samplesRead, i)
        invariant previousTime == stored[i - 1].time
        invariant Sums(totalDistance, totalTime) == SumRecent(stored, currTime, i)
        decreases |stored| - i
      {
        assert i < |stored| && samples[sampleIndex] == stored[i];
        if currTime - samples[sampleIndex].time <= AGE_OLDEST_SAMPLE {
          var deltaTime := ToInt32(samples[sampleIndex].time - previousTime);
          totalDistance := totalDistance + samples[sampleIndex].mov;
          totalTime := totalTime + deltaTime;
        }
        previousTime := samples[sampleIndex].time;
        sampleIndex := (sampleIndex + 1) % MAX_SAMPLES;
        i := i + 1;
      }
      assert i == |stored|;
    }
  }
}
