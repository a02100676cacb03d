/** Date-times of a file and the search for a time step (createDateTimes of
    src/monio/Monio.cc, findTimeStep of src/monio/Reader.cc), in whole seconds. */
module DateTimes {
  import opened Options

  const TIME_DIM_NAME := "time_counter"
  const TIME_VAR_NAME := "time_instant"
  const TIME_ORIGIN_NAME := "time_origin"

  /** Rounding of a time offset, half up, as for any that rounds to no less than zero. */
  function Rounded(x: real): int { (x + 0.5).Floor }

  /** No offset rounds to less than zero; what becomes of one that does is not defined. */
  predicate Countable(offsets: seq<real>) { forall k :: 0 <= k < |offsets| ==> offsets[k] > -0.5 }

  function DateTimesOf(origin: int, offsets: seq<real>): (r: seq<int>)
    ensures |r| == |offsets| && forall k :: 0 <= k < |r| ==> r[k] == origin + Rounded(offsets[k])
  {
    seq(|offsets|, k requires 0 <= k < |offsets| => origin + Rounded(offsets[k]))
  }

  method CreateDateTimes(origin: int, offsets: seq<real>) returns (r: Option<seq<int>>)
    ensures r == if Countable(offsets) then Some(DateTimesOf(origin, offsets)) else None
  {
    var dateTimes := seq(|offsets|, _ => 0);
    for index := 0 to |offsets|
      invariant |dateTimes| == |offsets|
      invariant forall k :: 0 <= k < index ==> offsets[k] > -0.5 && dateTimes[k] == origin + Rounded(offsets[k])
    {
      if offsets[index] <= -0.5 { return None; }
      var duration := Rounded(offsets[index]);
      dateTimes := dateTimes[index := origin + duration];
    }
    assert dateTimes == DateTimesOf(origin, offsets);
    return Some(dateTimes);
  }

  /** The first step with the given date-time; none is an error, also for no date-times. */
  method FindTimeStep(dateTimes: seq<int>, dateTime: int) returns (r: Option<nat>)
    ensures r.Some? ==> r.value < |dateTimes| && dateTimes[r.value] == dateTime && dateTime !in dateTimes[..r.value]
    ensures r.None? <==> dateTime !in dateTimes
    ensures r == StepOf(dateTimes, dateTime, 0)
  {
    if |dateTimes| == 0 { return None; }
    for timeStep := 0 to |dateTimes|
      invariant dateTime !in dateTimes[..timeStep]
      invariant StepOf(dateTimes, dateTime, timeStep) == StepOf(dateTimes, dateTime, 0)
    {
      if dateTimes[timeStep] == dateTime { return Some(timeStep); }
    }
    return None;
  }

  function StepOf(dateTimes: seq<int>, dateTime: int, from: nat): Option<nat>
    requires from <= |dateTimes|
    decreases |dateTimes| - from
  {
    if from == |dateTimes| then None
    else if dateTimes[from] == dateTime then Some(from)
    else StepOf(dateTimes, dateTime, from + 1)
  }

  ghost predicate Distinct(s: seq<int>) { forall i, k :: 0 <= i < k < |s| ==> s[i] != s[k] }

  /** Every date-time is found at its own step. */
  ghost predicate FindsEveryStep(dateTimes: seq<int>) {
    forall k :: 0 <= k < |dateTimes| ==> StepOf(dateTimes, dateTimes[k], 0) == Some(k)
  }

  lemma {:induction false} StepOfIsFirst(dateTimes: seq<int>, k: nat, from: nat)
    requires from <= k < |dateTimes|
    ensures var r := StepOf(dateTimes, dateTimes[k], from);
            r.Some? && from <= r.value <= k && dateTimes[r.value] == dateTimes[k]
    decreases k - from
  {
    if dateTimes[from] != dateTimes[k] { StepOfIsFirst(dateTimes, k, from + 1); }
  }

  lemma FindsEveryStepIff(dateTimes: seq<int>)
    ensures FindsEveryStep(dateTimes) <==> Distinct(dateTimes)
  {
    if Distinct(dateTimes) {
      forall k | 0 <= k < |dateTimes| ensures StepOf(dateTimes, dateTimes[k], 0) == Some(k) {
        StepOfIsFirst(dateTimes, k, 0);
      }
    }
    if FindsEveryStep(dateTimes) {
      forall i, k | 0 <= i < k < |dateTimes| ensures dateTimes[i] != dateTimes[k] {
        assert StepOf(dateTimes, dateTimes[i], 0) == Some(i);
        assert StepOf(dateTimes, dateTimes[k], 0) == Some(k);
      }
    }
  }

  /** Each offset is at least a second after the one before. */
  ghost predicate SecondsApart(offsets: seq<real>) {
    forall k :: 0 < k < |offsets| ==> offsets[k] >= offsets[k - 1] + 1.0
  }

  lemma {:induction false} RoundedGrows(offsets: seq<real>, i: nat, k: nat)
    requires SecondsApart(offsets) && i < k < |offsets|
    ensures Rounded(offsets[i]) < Rounded(offsets[k])
    decreases k
  {
    if i < k - 1 { RoundedGrows(offsets, i, k - 1); }
    assert (offsets[k - 1] + 0.5 + 1.0).Floor == (offsets[k - 1] + 0.5).Floor + 1;
  }

  /** With offsets a second apart or more, every stored date-time is found at its step. */
  lemma SecondsApartAreFound(origin: int, offsets: seq<real>)
    requires SecondsApart(offsets)
    ensures FindsEveryStep(DateTimesOf(origin, offsets))
  {
    var dateTimes := DateTimesOf(origin, offsets);
    forall i, k | 0 <= i < k < |dateTimes| ensures dateTimes[i] != dateTimes[k] {
      RoundedGrows(offsets, i, k);
    }
    FindsEveryStepIff(dateTimes);
  }
}
