/**
  The scan control of the JellyBean MR2 scanner: deferring a scan that is due later,
  queueing start and stop requests for the radio on the worker thread, and sharing
  one lazily created scan callback between them.

  State owned by the base scanner (the next cycle start time, the background flag,
  the paused flag, whether a Bluetooth adapter is present) is held in fields of the
  class. The worker thread's message queue is a sequence of requests; what the main
  thread is asked to do (a wake-up alarm, a delayed re-check) is recorded in a log;
  what reaches the consumer's scan callback is recorded as events.
*/
module Scanner {
  import opened ServiceData

  /** The radio's scan callback object; only its identity matters here. */
  class LeScanCallback {
    constructor () {}
  }

  /** A task on the worker thread: start or stop LE scanning with the given callback. */
  datatype WorkerTask =
    | StartLeScan(callback: LeScanCallback)
    | StopLeScan(callback: LeScanCallback)

  /** Effects requested of the main thread while a scan is deferred. */
  datatype MainThreadEffect =
    | WakeUpAlarm
    | ScanLeDeviceAfter(delayMs: int)

  /** What the consumer's callback receives for one advertisement. */
  datatype ScanEvent<K> = LeScan(device: int, rssi: int, scanRecord: seq<byte>, serviceData: map<K, seq<byte>>, timestampMs: int)

  /** The longest a deferred scan waits before its start is decided again. */
  const MAX_DEFER_MS: int := 1000

  /** Wait before re-checking a deferred scan: the time left, but at most one second. */
  function DeferDelay(millisecondsUntilStart: int): (delay: int)
    requires millisecondsUntilStart > 0
    ensures 0 < delay <= MAX_DEFER_MS
    ensures delay <= millisecondsUntilStart
    ensures delay == millisecondsUntilStart || delay == MAX_DEFER_MS
  {
    if millisecondsUntilStart > MAX_DEFER_MS then MAX_DEFER_MS else millisecondsUntilStart
  }

  class CycledLeScannerForJellyBeanMr2<K(==)> {
    /** How service UUID octets become a UUID (not part of this model). */
    const uuidOf: seq<byte> -> K

    var nextScanCycleStartTime: int
    var backgroundFlag: bool
    var scanningPaused: bool
    var adapterPresent: bool
    var leScanCallback: LeScanCallback?

    var workerQueue: seq<WorkerTask>
    var mainThreadLog: seq<MainThreadEffect>
    var scanEvents: seq<ScanEvent<K>>

    /**
      Every queued task uses the one shared callback, at most one task is pending,
      every re-check delay lies in (0, 1000], and every delivered event carries the
      service data parsed from its own record.
    */
    ghost predicate Valid()
      reads this
    {
      && |workerQueue| <= 1
      && (forall t :: t in workerQueue ==> t.callback == leScanCallback)
      && (forall e :: e in mainThreadLog && e.ScanLeDeviceAfter? ==> 0 < e.delayMs <= MAX_DEFER_MS)
      && (forall e :: e in scanEvents ==> e.serviceData == ServiceDataOf(uuidOf, e.scanRecord))
    }

    constructor (uuidOf: seq<byte> -> K, nextScanCycleStartTime: int, backgroundFlag: bool, scanningPaused: bool, adapterPresent: bool)
      ensures Valid()
      ensures this.uuidOf == uuidOf && this.nextScanCycleStartTime == nextScanCycleStartTime
      ensures this.backgroundFlag == backgroundFlag && this.scanningPaused == scanningPaused
      ensures this.adapterPresent == adapterPresent
      ensures leScanCallback == null && workerQueue == [] && mainThreadLog == [] && scanEvents == []
    {
      this.uuidOf := uuidOf;
      this.nextScanCycleStartTime := nextScanCycleStartTime;
      this.backgroundFlag := backgroundFlag;
      this.scanningPaused := scanningPaused;
      this.adapterPresent := adapterPresent;
      leScanCallback := null;
      workerQueue := [];
      mainThreadLog := [];
      scanEvents := [];
    }

    /**
      Defers the scan when the next cycle is not yet due at time `now`: asks for a
      wake-up alarm in background mode, then posts one re-check after the time left,
      capped at one second. Otherwise does nothing.
    */
    method DeferScanIfNeeded(now: int) returns (deferred: bool)
      requires Valid()
      modifies this`mainThreadLog
      ensures Valid()
      ensures deferred <==> nextScanCycleStartTime - now > 0
      ensures deferred ==>
        mainThreadLog == old(mainThreadLog)
          + (if backgroundFlag then [WakeUpAlarm] else [])
          + [ScanLeDeviceAfter(DeferDelay(nextScanCycleStartTime - now))]
      ensures !deferred ==> mainThreadLog == old(mainThreadLog)
    {
      var millisecondsUntilStart := nextScanCycleStartTime - now;
      if millisecondsUntilStart > 0 {
        if backgroundFlag {
          mainThreadLog := mainThreadLog + [WakeUpAlarm];
        }
        mainThreadLog := mainThreadLog + [ScanLeDeviceAfter(DeferDelay(millisecondsUntilStart))];
        return true;
      }
      return false;
    }

    /** The shared scan callback, created on first use. */
    method GetLeScanCallback() returns (callback: LeScanCallback)
      requires Valid()
      modifies this`leScanCallback
      ensures Valid()
      ensures old(leScanCallback) != null ==> callback == old(leScanCallback)
      ensures old(leScanCallback) == null ==> fresh(callback)
      ensures leScanCallback == callback
    {
      if leScanCallback == null {
        leScanCallback := new LeScanCallback();
      }
      callback := leScanCallback;
    }

    /** Without an adapter nothing happens; otherwise the worker queue is replaced by one start task. */
    method PostStartLeScan()
      requires Valid()
      modifies this`leScanCallback, this`workerQueue
      ensures Valid()
      ensures !adapterPresent ==> leScanCallback == old(leScanCallback) && workerQueue == old(workerQueue)
      ensures adapterPresent ==> leScanCallback != null && workerQueue == [StartLeScan(leScanCallback)]
      ensures adapterPresent && old(leScanCallback) != null ==> leScanCallback == old(leScanCallback)
      ensures adapterPresent && old(leScanCallback) == null ==> fresh(leScanCallback)
    {
      if !adapterPresent {
        return;
      }
      var callback := GetLeScanCallback();
      workerQueue := [];
      workerQueue := workerQueue + [StartLeScan(callback)];
    }

    /** Without an adapter nothing happens; otherwise the worker queue is replaced by one stop task. */
    method PostStopLeScan()
      requires Valid()
      modifies this`leScanCallback, this`workerQueue
      ensures Valid()
      ensures !adapterPresent ==> leScanCallback == old(leScanCallback) && workerQueue == old(workerQueue)
      ensures adapterPresent ==> leScanCallback != null && workerQueue == [StopLeScan(leScanCallback)]
      ensures adapterPresent && old(leScanCallback) != null ==> leScanCallback == old(leScanCallback)
      ensures adapterPresent && old(leScanCallback) == null ==> fresh(leScanCallback)
    {
      if !adapterPresent {
        return;
      }
      var callback := GetLeScanCallback();
      workerQueue := [];
      workerQueue := workerQueue + [StopLeScan(callback)];
    }

    method StartScan()
      requires Valid()
      modifies this`leScanCallback, this`workerQueue
      ensures Valid()
      ensures !adapterPresent ==> leScanCallback == old(leScanCallback) && workerQueue == old(workerQueue)
      ensures adapterPresent ==> leScanCallback != null && workerQueue == [StartLeScan(leScanCallback)]
      ensures adapterPresent && old(leScanCallback) != null ==> leScanCallback == old(leScanCallback)
      ensures adapterPresent && old(leScanCallback) == null ==> fresh(leScanCallback)
    {
      PostStartLeScan();
    }

    method StopScan()
      requires Valid()
      modifies this`leScanCallback, this`workerQueue
      ensures Valid()
      ensures !adapterPresent ==> leScanCallback == old(leScanCallback) && workerQueue == old(workerQueue)
      ensures adapterPresent ==> leScanCallback != null && workerQueue == [StopLeScan(leScanCallback)]
      ensures adapterPresent && old(leScanCallback) != null ==> leScanCallback == old(leScanCallback)
      ensures adapterPresent && old(leScanCallback) == null ==> fresh(leScanCallback)
    {
      PostStopLeScan();
    }

    /** Like StopScan, and the scanner is marked paused whether or not an adapter is present. */
    method FinishScan()
      requires Valid()
      modifies this`leScanCallback, this`workerQueue, this`scanningPaused
      ensures Valid()
      ensures scanningPaused
      ensures !adapterPresent ==> leScanCallback == old(leScanCallback) && workerQueue == old(workerQueue)
      ensures adapterPresent ==> leScanCallback != null && workerQueue == [StopLeScan(leScanCallback)]
      ensures adapterPresent && old(leScanCallback) != null ==> leScanCallback == old(leScanCallback)
      ensures adapterPresent && old(leScanCallback) == null ==> fresh(leScanCallback)
    {
      PostStopLeScan();
      scanningPaused := true;
    }

    /**
      The body of the shared callback: one advertisement is parsed and handed to the
      consumer with the time it was received.
    */
    method OnLeScan(device: int, rssi: int, scanRecord: seq<byte>, timestampMs: int)
      requires Valid()
      modifies this`scanEvents
      ensures Valid()
      ensures scanEvents == old(scanEvents) + [LeScan(device, rssi, scanRecord, ServiceDataOf(uuidOf, scanRecord), timestampMs)]
    {
      var serviceData := ParseServiceData(uuidOf, scanRecord);
      scanEvents := scanEvents + [LeScan(device, rssi, scanRecord, serviceData, timestampMs)];
    }
  }

  /**
    A start followed by a stop leaves only the stop pending, and it uses the very
    callback the start registered.
  */
  method StartThenStop<K(==)>(scanner: CycledLeScannerForJellyBeanMr2<K>) returns (callback: LeScanCallback)
    requires scanner.Valid() && scanner.adapterPresent
    modifies scanner`leScanCallback, scanner`workerQueue
    ensures scanner.Valid()
    ensures scanner.workerQueue == [StopLeScan(callback)] && scanner.leScanCallback == callback
    ensures old(scanner.leScanCallback) != null ==> callback == old(scanner.leScanCallback)
  {
    scanner.StartScan();
    callback := scanner.workerQueue[0].callback;
    scanner.StopScan();
  }

  /**
    A start requested at time 200 when the next cycle is due at 1100 in foreground
    mode is deferred by 900 ms without a wake-up alarm; in background mode the alarm
    is asked for once per deferral.
  */
  method EarlyRestart() {
    var foreground := new CycledLeScannerForJellyBeanMr2((b: seq<byte>) => b, 1100, false, false, true);
    var deferred := foreground.DeferScanIfNeeded(200);
    assert deferred && foreground.mainThreadLog == [ScanLeDeviceAfter(900)];

    var background := new CycledLeScannerForJellyBeanMr2((b: seq<byte>) => b, 1100, true, false, true);
    deferred := background.DeferScanIfNeeded(200);
    assert deferred && background.mainThreadLog == [WakeUpAlarm, ScanLeDeviceAfter(900)];
    deferred := background.DeferScanIfNeeded(600);
    assert deferred;
    assert background.mainThreadLog == [WakeUpAlarm, ScanLeDeviceAfter(900), WakeUpAlarm, ScanLeDeviceAfter(500)];

    deferred := background.DeferScanIfNeeded(1100);
    assert !deferred;
  }
}
