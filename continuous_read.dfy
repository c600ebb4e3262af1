/**
 * The continuous-read session of index.js and src/index.ts: module-level
 * state (`isContinuousReading`, `continuousCallback`), a polling interval
 * whose handle is stored on the callback object, and a tick that runs in
 * steps separated by awaits.  The timer service is an object of its own;
 * the backend's answers (the reader list, the read result) are the tick's
 * inputs, and `stop`/`start` may run between the tick's steps.
 */
module ContinuousRead {
  import opened Options
  import opened JsValues
  import opened Bridge

  const AlreadyActiveMessage := "Continuous reading is already active"

  /** The error `startContinuousRead` throws while a session is running. */
  function AlreadyActive(): (e: JsValue)
    ensures IsError(e) && e.message == AlreadyActiveMessage
  {
    ErrorObject("Error", AlreadyActiveMessage)
  }

  /** What V8 throws for `continuousCallback.intervalId = ...` when the callback is null. */
  function NullCallbackError(): (e: JsValue)
    ensures IsError(e) && e.name == "TypeError"
  {
    ErrorObject("TypeError", "Cannot set properties of null (setting 'intervalId')")
  }

  /** setInterval/clearInterval: the set of armed interval handles.  Handles are never reused. */
  class Timers {
    var armed: set<nat>
    var nextHandle: nat

    ghost predicate Valid()
      reads this
    {
      nextHandle >= 1 && forall h :: h in armed ==> 1 <= h < nextHandle
    }

    constructor()
      ensures Valid() && armed == {} && nextHandle == 1
    {
      armed := {};
      nextHandle := 1;
    }

    /** setInterval(fn, 1000): a fresh handle, armed. */
    method SetInterval() returns (handle: nat)
      requires Valid()
      modifies this
      ensures Valid()
      ensures handle == old(nextHandle) && handle !in old(armed)
      ensures armed == old(armed) + {handle} && nextHandle == old(nextHandle) + 1
    {
      handle := nextHandle;
      armed := armed + {handle};
      nextHandle := nextHandle + 1;
    }

    /** clearInterval(handle): the handle no longer fires; clearing a cleared handle does nothing. */
    method ClearInterval(handle: nat)
      requires Valid()
      modifies this
      ensures Valid()
      ensures armed == old(armed) - {handle} && nextHandle == old(nextHandle)
    {
      armed := armed - {handle};
    }
  }

  /** The user's callback function, with the `intervalId` property the session attaches to it. */
  class Callback {
    var intervalId: Option<nat>

    constructor()
      ensures intervalId == None
    {
      intervalId := None;
    }
  }

  /** One invocation `continuousCallback(result)`. */
  datatype Delivery = Delivery(callback: Callback, result: JsValue)

  /** The reader a tick reads from, given what `await getReaders()` produced: `readers[0]`, if there is one. */
  function ReaderToPoll(readers: Promise<seq<string>>): (reader: Option<string>)
    ensures reader.Some? <==> readers.Fulfilled? && |readers.value| > 0
    ensures reader.Some? ==> reader.value == readers.value[0]
  {
    if readers.Fulfilled? && |readers.value| > 0 then Some(readers.value[0]) else None
  }

  /** What `await getReaders()` yields to the tick, the addon's array being read as reader names by `asNames`. */
  function ReaderList(p: Promise<JsValue>, asNames: JsValue -> seq<string>): Promise<seq<string>> {
    match p
    case Pending => Pending
    case Fulfilled(v) => Fulfilled(asNames(v))
    case Rejected(reason) => Rejected(reason)
  }

  /**
   * With index.js's promisify around the addon's getReaders, the awaited list
   * never arrives, so no tick ever polls a reader; a bridge that settles from
   * the return value polls the first name of the returned array.
   */
  lemma PromisifiedTickNeverPolls(call: AddonCall, asNames: JsValue -> seq<string>)
    ensures ReaderToPoll(ReaderList(Promisify(AddonSignals(call)), asNames)) == None
    ensures call.Returned? && asNames(call.value) != [] ==>
      ReaderToPoll(ReaderList(CallAddon(call), asNames)) == Some(asNames(call.value)[0])
  {
    PromisifiedAddonNeverFulfills(call);
  }

  /** Whether the resumed tick calls back: the read succeeded with a truthy result and a callback is registered now. */
  predicate CallsBack(read: Promise<JsValue>, current: Callback?): (b: bool)
    ensures b ==> read.Fulfilled? && current != null
    ensures read.Fulfilled? && current != null ==>
      (b <==> read.value != Undefined && read.value != Null && read.value != Bool(false)
              && read.value != Number(0) && read.value != Str(""))
  {
    read.Fulfilled? && Truthy(read.value) && current != null
  }

  /** The module state of the session, with the timers it arms and the callback invocations made so far. */
  class Session {
    var isContinuousReading: bool
    var continuousCallback: Callback?
    var delivered: seq<Delivery>
    const timers: Timers

    /**
     * A registered callback exists only while reading, and the interval
     * recorded on it is armed.  (Reading with no callback is possible:
     * see Start with a null callback.)
     */
    ghost predicate Valid()
      reads this, timers, continuousCallback
    {
      && timers.Valid()
      && (continuousCallback != null ==>
            && isContinuousReading
            && continuousCallback.intervalId.Some?
            && continuousCallback.intervalId.value in timers.armed)
    }

    /** The state when the module is loaded. */
    constructor()
      ensures Valid() && fresh(timers)
      ensures !isContinuousReading && continuousCallback == null && delivered == []
      ensures timers.armed == {}
    {
      isContinuousReading := false;
      continuousCallback := null;
      delivered := [];
      timers := new Timers();
    }

    /**
     * startContinuousRead(callback).  While active it throws and changes
     * nothing.  While idle it sets the flag, stores the callback, arms a new
     * interval and records its handle on the callback; a null callback makes
     * that last assignment throw a TypeError after the rest has happened.
     */
    method Start(callback: Callback?) returns (thrown: Option<JsValue>)
      requires Valid()
      modifies this, timers, callback
      ensures Valid()
      ensures delivered == old(delivered)
      ensures old(isContinuousReading) ==>
        && thrown == Some(AlreadyActive())
        && isContinuousReading && continuousCallback == old(continuousCallback)
        && timers.armed == old(timers.armed) && timers.nextHandle == old(timers.nextHandle)
        && (callback != null ==> callback.intervalId == old(callback.intervalId))
      ensures !old(isContinuousReading) ==>
        && isContinuousReading && continuousCallback == callback
        && timers.armed == old(timers.armed) + {old(timers.nextHandle)}
        && timers.nextHandle == old(timers.nextHandle) + 1
        && (callback != null ==> thrown == None && callback.intervalId == Some(old(timers.nextHandle)))
        && (callback == null ==> thrown == Some(NullCallbackError()))
    {
      if isContinuousReading {
        return Some(AlreadyActive());
      }
      isContinuousReading := true;
      continuousCallback := callback;
      var pollInterval := timers.SetInterval();
      if callback == null {
        return Some(NullCallbackError());
      }
      callback.intervalId := Some(pollInterval);
      thrown := None;
    }

    /**
     * stopContinuousRead().  While idle it returns at once.  Otherwise it
     * clears the flag, clears the interval recorded on the callback and
     * forgets the callback.
     */
    method Stop()
      requires Valid()
      modifies this, timers
      ensures Valid()
      ensures !isContinuousReading && continuousCallback == null
      ensures delivered == old(delivered) && timers.nextHandle == old(timers.nextHandle)
      ensures !old(isContinuousReading) ==> timers.armed == old(timers.armed)
      ensures old(continuousCallback) != null ==>
        timers.armed == old(timers.armed) - {old(continuousCallback).intervalId.value}
      ensures old(continuousCallback) == null ==> timers.armed == old(timers.armed)
    {
      if !isContinuousReading {
        return;
      }
      isContinuousReading := false;
      if continuousCallback != null && continuousCallback.intervalId.Some? {
        timers.ClearInterval(continuousCallback.intervalId.value);
      }
      continuousCallback := null;
    }

    /**
     * The first step of a tick of the interval `handle`, up to the first
     * await: a tick that finds the session stopped clears its own interval
     * and ends; otherwise it goes on to call getReaders.
     */
    method BeginTick(handle: nat) returns (proceed: bool)
      requires Valid() && handle in timers.armed
      modifies timers
      ensures Valid()
      ensures proceed == isContinuousReading
      ensures !proceed ==> timers.armed == old(timers.armed) - {handle}
      ensures proceed ==> timers.armed == old(timers.armed)
      ensures timers.nextHandle == old(timers.nextHandle)
    {
      if !isContinuousReading {
        timers.ClearInterval(handle);
        return false;
      }
      proceed := true;
    }

    /**
     * The last step of a tick, after `await readTag(reader)`: a truthy
     * result is passed, as it is, to whatever callback is registered now.
     * A rejected read lands in the catch block and changes nothing.
     */
    method ResumeAfterRead(read: Promise<JsValue>)
      requires Valid()
      modifies this`delivered
      ensures Valid()
      ensures CallsBack(read, continuousCallback) ==>
        delivered == old(delivered) + [Delivery(continuousCallback, read.value)]
      ensures !CallsBack(read, continuousCallback) ==> delivered == old(delivered)
    {
      if read.Fulfilled? && Truthy(read.value) && continuousCallback != null {
        delivered := delivered + [Delivery(continuousCallback, read.value)];
      }
    }

    /**
     * A whole tick with nothing interleaved: begin, poll `readers[0]` if the
     * reader list is non-empty, resume.  `polled` is the reader readTag was
     * called with, if any.
     */
    method Tick(handle: nat, readers: Promise<seq<string>>, read: Promise<JsValue>) returns (polled: Option<string>)
      requires Valid() && handle in timers.armed
      modifies this`delivered, timers
      ensures Valid()
      ensures polled == if old(isContinuousReading) then ReaderToPoll(readers) else None
      ensures polled.Some? && CallsBack(read, continuousCallback) ==>
        delivered == old(delivered) + [Delivery(continuousCallback, read.value)]
      ensures !(polled.Some? && CallsBack(read, continuousCallback)) ==> delivered == old(delivered)
      ensures old(isContinuousReading) ==> timers.armed == old(timers.armed)
      ensures !old(isContinuousReading) ==> timers.armed == old(timers.armed) - {handle}
      ensures timers.nextHandle == old(timers.nextHandle)
    {
      var proceed := BeginTick(handle);
      if !proceed {
        return None;
      }
      polled := ReaderToPoll(readers);
      if polled.Some? {
        ResumeAfterRead(read);
      }
    }
  }

  // ----- runs of the session, with stop and start between a tick's steps -----

  /** A freshly loaded module after `startContinuousRead(cb)` with a new callback. */
  method StartedSession() returns (s: Session, cb: Callback, handle: nat)
    ensures fresh(s) && fresh(s.timers) && fresh(cb) && s.Valid()
    ensures s.isContinuousReading && s.continuousCallback == cb && s.delivered == []
    ensures cb.intervalId == Some(handle) && s.timers.armed == {handle}
  {
    s := new Session();
    cb := new Callback();
    var _ := s.Start(cb);
    handle := cb.intervalId.value;
  }

  /**
   * A session whose tick began while reading and called readTag on the
   * only reader, and which was then stopped while that read was pending.
   */
  method StoppedDuringTick(reader: string) returns (s: Session, polled: Option<string>, handle: nat)
    ensures fresh(s) && fresh(s.timers) && s.Valid()
    ensures polled == Some(reader)
    ensures !s.isContinuousReading && s.continuousCallback == null && s.delivered == []
    ensures s.timers.armed == {} && handle < s.timers.nextHandle
  {
    var cb;
    s, cb, handle := StartedSession();
    var proceed := s.BeginTick(handle);
    polled := if proceed then ReaderToPoll(Fulfilled([reader])) else None;
    s.Stop();
  }

  /** A tick suspended in `readTag` while stop runs never calls back, even if the read then succeeds. */
  method StopDuringTick(reader: string, result: JsValue) returns (callbacks: nat)
    ensures callbacks == 0
  {
    var s, polled, handle := StoppedDuringTick(reader);
    s.ResumeAfterRead(Fulfilled(result));
    callbacks := |s.delivered|;
  }

  /**
   * After stop then start during a tick, the stale tick of the first session
   * calls back the second session's callback, although its own interval has
   * been cleared.
   */
  method RestartDuringTick(reader: string, result: JsValue) returns (second: Callback, deliveries: seq<Delivery>, firstIntervalArmed: bool)
    requires Truthy(result)
    ensures deliveries == [Delivery(second, result)] && !firstIntervalArmed
  {
    var s, polled, handle := StoppedDuringTick(reader);
    second := new Callback();
    var _ := s.Start(second);
    firstIntervalArmed := handle in s.timers.armed;
    s.ResumeAfterRead(Fulfilled(result));
    deliveries := s.delivered;
  }

  /** A second start throws; the first callback stays registered with its interval armed, and the second gets no interval. */
  method DoubleStart() returns (thrown: Option<JsValue>, keepsFirst: bool, secondUntouched: bool)
    ensures thrown == Some(AlreadyActive())
    ensures keepsFirst && secondUntouched
  {
    var s, first, handle := StartedSession();
    var second := new Callback();
    thrown := s.Start(second);
    keepsFirst := s.isContinuousReading && s.continuousCallback == first
      && first.intervalId == Some(handle) && handle in s.timers.armed;
    secondUntouched := second.intervalId == None;
  }

  /** Stopping twice: the second stop finds the session idle and leaves the state and the timers as the first left them. */
  method StopTwice() returns (sameState: bool, intervalCleared: bool)
    ensures sameState && intervalCleared
  {
    var s, cb, handle := StartedSession();
    s.Stop();
    var armed := s.timers.armed;
    s.Stop();
    sameState := !s.isContinuousReading && s.continuousCallback == null && s.timers.armed == armed;
    intervalCleared := handle !in s.timers.armed;
  }

  /**
   * With a null callback, start throws after arming its interval and records
   * the handle nowhere, so stop cannot clear it.  If a new session starts
   * before that interval's next tick, the orphan keeps polling: its ticks
   * proceed, and stop can no longer clear it.
   */
  method NullStartOrphansInterval() returns (thrown: Option<JsValue>, orphanPolls: bool, orphanArmedAfterStop: bool)
    ensures thrown == Some(NullCallbackError())
    ensures orphanPolls && orphanArmedAfterStop
  {
    var s := new Session();
    thrown := s.Start(null);
    var orphan := s.timers.nextHandle - 1;
    s.Stop();
    var cb := new Callback();
    var _ := s.Start(cb);
    orphanPolls := s.BeginTick(orphan);
    s.Stop();
    orphanArmedAfterStop := orphan in s.timers.armed;
  }

  /** Without a restart, the orphaned interval of a null-callback start clears itself at its next tick. */
  method NullStartThenStop() returns (orphanPolls: bool, orphanArmed: bool)
    ensures !orphanPolls && !orphanArmed
  {
    var s := new Session();
    var _ := s.Start(null);
    var orphan := s.timers.nextHandle - 1;
    s.Stop();
    orphanPolls := s.BeginTick(orphan);
    orphanArmed := orphan in s.timers.armed;
  }
}
