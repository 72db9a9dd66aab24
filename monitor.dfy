/**
 * TemperatureMonitoringSystem: the shared buffer of readings, the sensors'
 * ready flags and the hourly report with its exactly-once guard. The
 * threads, the mutex and the condition variable that make the sensors
 * wait for one another are not modelled; each operation here is what one
 * thread does while it holds the lock, or on data no other thread writes.
 */
module Monitor {
  import opened Window
  import opened Extremes

  const SensorCount: nat := 8
  const Minutes: nat := 60
  const Hours: nat := 24

  /** Number of slots in the readings buffer. */
  const BufferSize: nat := SensorCount * Minutes

  datatype Option<T> = None | Some(value: T)

  /** What compileHourlyReport prints, as a value. */
  datatype Report = Report(
    maxDifference: int,
    startInterval: nat,
    endInterval: nat,
    highest: seq<int>,
    lowest: seq<int>)

  /**
   * The slot a reading is written to, exactly as the source computes it:
   * hour * minutes + minute.
   */
  function RawIndex(hour: int, minute: int): (index: int) {
    hour * Minutes + minute
  }

  /** From hour 8 on, the source's slot lies past the end of the buffer. */
  lemma RawIndexLeavesBuffer()
    ensures RawIndex(SensorCount, 0) == BufferSize
    ensures exists hour, minute :: 0 <= hour < Hours && 0 <= minute < Minutes && RawIndex(hour, minute) >= BufferSize
  {
    assert RawIndex(Hours - 1, Minutes - 1) >= BufferSize;
  }

  /**
   * The slot of a reading, for the hours the buffer holds: a distinct slot
   * inside the buffer for every (hour, minute), from which both are
   * recovered.
   */
  function ReadingIndex(hour: nat, minute: nat): (index: nat)
    requires hour < SensorCount && minute < Minutes
    ensures index == RawIndex(hour, minute)
    ensures index < BufferSize
    ensures index / Minutes == hour && index % Minutes == minute
  {
    hour * Minutes + minute
  }

  /** The source's slot is inside the buffer exactly for the first SensorCount hours. */
  lemma RawIndexInBuffer(hour: nat, minute: nat)
    requires minute < Minutes
    ensures RawIndex(hour, minute) < BufferSize <==> hour < SensorCount
  {
    if SensorCount <= hour {
      assert RawIndex(hour, minute) >= SensorCount * Minutes;
    }
  }

  class TemperatureMonitor {
    var sensorReadings: array<int>
    var sensorsReady: array<bool>
    /** The last hour a report was compiled for; -1 before the first. */
    var reportHour: int

    ghost predicate Valid()
      reads this
    {
      sensorReadings.Length == BufferSize && sensorsReady.Length == SensorCount
    }

    /** A buffer of zero readings, no sensor ready, no report yet. */
    constructor ()
      ensures Valid()
      ensures fresh(sensorReadings) && fresh(sensorsReady)
      ensures forall i :: 0 <= i < BufferSize ==> sensorReadings[i] == 0
      ensures forall i :: 0 <= i < SensorCount ==> !sensorsReady[i]
      ensures reportHour == -1
    {
      sensorReadings := new int[BufferSize](_ => 0);
      sensorsReady := new bool[SensorCount](_ => false);
      reportHour := -1;
    }

    /** One sensor's write of a reading: only that slot changes. */
    method RecordReading(hour: nat, minute: nat, value: int)
      requires Valid()
      requires hour < SensorCount && minute < Minutes
      modifies sensorReadings
      ensures sensorReadings[..] == old(sensorReadings[..])[ReadingIndex(hour, minute) := value]
    {
      sensorReadings[ReadingIndex(hour, minute)] := value;
    }

    /** allSensorsReady: every flag is set. */
    predicate AllSensorsReady()
      reads this, sensorsReady
      ensures AllSensorsReady() <==> forall i :: 0 <= i < sensorsReady.Length ==> sensorsReady[i]
    {
      false !in sensorsReady[..]
    }

    /**
     * A sensor announces its reading: its flag is set and no other flag
     * changes, so the barrier opens exactly when every other sensor was
     * already ready.
     */
    method MarkReady(threadId: nat)
      requires Valid() && threadId < SensorCount
      modifies sensorsReady
      ensures sensorsReady[..] == old(sensorsReady[..])[threadId := true]
      ensures AllSensorsReady() <==>
        forall i :: 0 <= i < SensorCount && i != threadId ==> old(sensorsReady[i])
    {
      sensorsReady[threadId] := true;
      assert forall i :: 0 <= i < SensorCount && i != threadId ==> sensorsReady[i] == old(sensorsReady[i]);
    }

    /**
     * printLargestDifference: scans every window of Step readings and keeps
     * the first one with the largest spread.
     */
    method LargestDifference() returns (maxDifference: int, startInterval: nat, endInterval: nat)
      requires Valid()
      ensures IsEarliestLargest(sensorReadings[..], maxDifference, startInterval)
      ensures endInterval == startInterval + Step
      ensures 0 <= maxDifference
    {
      startInterval := 0;
      maxDifference := IntMin;
      endInterval := Step;
      ghost var readings := sensorReadings[..];
      var i := 0;
      while i <= sensorReadings.Length - Step
        invariant 0 <= i <= |readings| - Step + 1
        invariant endInterval == startInterval + Step
        invariant i == 0 ==> maxDifference == IntMin && startInterval == 0
        invariant 0 < i ==> startInterval < i && maxDifference == WindowSpread(readings, startInterval)
        invariant forall j: nat :: j < i ==> WindowSpread(readings, j) <= maxDifference
        invariant forall j: nat :: j < startInterval ==> WindowSpread(readings, j) < maxDifference
      {
        var localMax := Max(sensorReadings[i..i + Step]);
        var localMin := Min(sensorReadings[i..i + Step]);
        var localDiff := localMax - localMin;
        assert readings[i..i + Step] == sensorReadings[i..i + Step];
        if localDiff > maxDifference {
          maxDifference := localDiff;
          startInterval := i;
          endInterval := i + Step;
        }
        i := i + 1;
      }
    }

    /**
     * compileHourlyReport: only a call for an hour later than the last one
     * reported produces a report, and it records that hour. The readings
     * and the flags are not touched.
     */
    method CompileHourlyReport(hour: int) returns (report: Option<Report>)
      requires Valid()
      modifies this`reportHour
      ensures report.Some? <==> old(reportHour) < hour
      ensures reportHour == if old(reportHour) < hour then hour else old(reportHour)
      ensures report.Some? ==>
        && IsEarliestLargest(sensorReadings[..], report.value.maxDifference, report.value.startInterval)
        && report.value.endInterval == report.value.startInterval + Step
        && report.value.highest == Highest(sensorReadings[..])
        && report.value.lowest == Lowest(sensorReadings[..])
    {
      if hour <= reportHour {
        return None;
      }
      reportHour := hour;
      var maxDifference, startInterval, endInterval := LargestDifference();
      var highest := Highest(sensorReadings[..]);
      var lowest := Lowest(sensorReadings[..]);
      report := Some(Report(maxDifference, startInterval, endInterval, highest, lowest));
    }
  }

  /**
   * The calls sensor 0 makes to compileHourlyReport: once per minute of
   * every hour. Returns the hours a report was produced for. Starting from
   * reportHour, each later hour of the day is reported exactly once, in
   * order, however many times it is asked for.
   */
  method ReportSchedule(m: TemperatureMonitor) returns (reported: seq<int>)
    requires m.Valid() && -1 <= m.reportHour
    modifies m`reportHour
    ensures var first := if old(m.reportHour) < Hours then old(m.reportHour) + 1 else Hours;
      && |reported| == Hours - first
      && forall k :: 0 <= k < |reported| ==> reported[k] == first + k
    ensures m.reportHour == if old(m.reportHour) < Hours then Hours - 1 else old(m.reportHour)
  {
    reported := [];
    ghost var first := if m.reportHour < Hours then m.reportHour + 1 else Hours;
    var hour := 0;
    while hour < Hours
      invariant 0 <= hour <= Hours
      invariant m.Valid()
      invariant m.reportHour == if old(m.reportHour) < hour then hour - 1 else old(m.reportHour)
      invariant first <= hour ==> |reported| == hour - first
      invariant hour < first ==> reported == []
      invariant forall k :: 0 <= k < |reported| ==> reported[k] == first + k
    {
      var minute := 0;
      while minute < Minutes
        invariant 0 <= minute <= Minutes
        invariant m.Valid()
        invariant minute == 0 ==> m.reportHour == if old(m.reportHour) < hour then hour - 1 else old(m.reportHour)
        invariant 0 < minute ==> m.reportHour == if old(m.reportHour) < hour + 1 then hour else old(m.reportHour)
        invariant first <= hour ==> |reported| == hour - first + (if minute == 0 then 0 else 1)
        invariant hour < first ==> reported == []
        invariant forall k :: 0 <= k < |reported| ==> reported[k] == first + k
      {
        var report := m.CompileHourlyReport(hour);
        if report.Some? {
          reported := reported + [hour];
        }
        minute := minute + 1;
      }
      hour := hour + 1;
    }
  }
}
