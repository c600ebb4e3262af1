/**
 * The promise bridge of index.js: `promisify(fn)` calls `fn` with a
 * node-style callback appended and settles a promise from the first thing
 * that happens, a call of the callback or an exception thrown by `fn`.
 * What happens is given as a trace of signals; the promise is a value.
 */
module Bridge {
  import opened JsValues

  /** A promise as its observer sees it: still pending, or settled once and for all. */
  datatype Promise<T> = Pending | Fulfilled(value: T) | Rejected(reason: JsValue)

  /** Something the wrapped function does: call the callback, or throw synchronously. */
  datatype Signal =
    | Callback(err: JsValue, result: JsValue)
    | SyncThrow(thrown: JsValue)

  /** How one signal settles a pending promise (index.js:8-21). */
  function Outcome(s: Signal): (p: Promise<JsValue>)
    ensures !p.Pending?
    ensures s.Callback? ==> (p.Fulfilled? <==> !Truthy(s.err))
    ensures s.Callback? && p.Rejected? ==> IsError(p.reason)
    ensures p.Fulfilled? ==> s.Callback? && p.value == s.result
  {
    match s
    case Callback(err, result) =>
      if Truthy(err) then
        if IsError(err) then Rejected(err) else Rejected(NewError(err))
      else Fulfilled(result)
    case SyncThrow(thrown) => Rejected(thrown)
  }

  /** resolve/reject on a promise: only the first call has an effect. */
  function Settle(p: Promise<JsValue>, s: Signal): (r: Promise<JsValue>)
    ensures !r.Pending?
    ensures !p.Pending? ==> r == p
    ensures p.Pending? && s.Callback? ==> (r.Fulfilled? <==> !Truthy(s.err))
  {
    if p.Pending? then Outcome(s) else p
  }

  /** The promise `promisify(fn)(...args)` returns, after `fn` has produced `trace`. */
  function Promisify(trace: seq<Signal>): (p: Promise<JsValue>)
    ensures p.Pending? <==> trace == []
  {
    if trace == [] then Pending else Settle(Promisify(trace[..|trace| - 1]), trace[|trace| - 1])
  }

  /** The promise stays pending exactly while nothing has happened, and then the first signal decides it. */
  lemma {:induction false} FirstSignalDecides(trace: seq<Signal>)
    ensures Promisify(trace).Pending? <==> trace == []
    ensures trace != [] ==> Promisify(trace) == Outcome(trace[0])
  {
    if |trace| > 1 {
      var init := trace[..|trace| - 1];
      FirstSignalDecides(init);
      assert init[0] == trace[0];
    }
  }

  /** Whatever `fn` does after the first signal (a second callback, a throw after calling back) changes nothing. */
  lemma LaterSignalsIgnored(trace: seq<Signal>, later: seq<Signal>)
    requires trace != []
    ensures Promisify(trace + later) == Promisify(trace)
  {
    FirstSignalDecides(trace);
    FirstSignalDecides(trace + later);
    assert (trace + later)[0] == trace[0];
  }

  /** `if (err instanceof Error) reject(err)`: an Error is passed on as the same object. */
  lemma ErrorRejectedAsIs(err: JsValue, result: JsValue, later: seq<Signal>)
    requires IsError(err)
    ensures Promisify([Callback(err, result)] + later) == Rejected(err)
  {
    FirstSignalDecides([Callback(err, result)] + later);
  }

  /** `reject(new Error(err))`: a truthy non-Error is wrapped, its text becoming the message. */
  lemma NonErrorWrapped(err: JsValue, result: JsValue, later: seq<Signal>)
    requires Truthy(err) && !IsError(err)
    ensures Promisify([Callback(err, result)] + later) == Rejected(ErrorObject("Error", ToJsString(err)))
  {
    FirstSignalDecides([Callback(err, result)] + later);
  }

  /** An empty array as err is truthy, so it is wrapped, but String([]) is "": the Error's message is empty. */
  lemma EmptyArrayErrWrapped(id: nat, result: JsValue, later: seq<Signal>)
    ensures Promisify([Callback(Object(id, ""), result)] + later) == Rejected(ErrorObject("Error", ""))
  {
    NonErrorWrapped(Object(id, ""), result, later);
  }

  /** `resolve(result)`: a falsy err resolves with the result, untouched. */
  lemma FalsyErrResolves(err: JsValue, result: JsValue, later: seq<Signal>)
    requires !Truthy(err)
    ensures Promisify([Callback(err, result)] + later) == Fulfilled(result)
  {
    FirstSignalDecides([Callback(err, result)] + later);
  }

  /** `catch (error) { reject(error) }`: a synchronous throw rejects with the thrown value, Error or not. */
  lemma SyncThrowRejects(thrown: JsValue, later: seq<Signal>)
    ensures Promisify([SyncThrow(thrown)] + later) == Rejected(thrown)
  {
    FirstSignalDecides([SyncThrow(thrown)] + later);
  }

  // ----- the wrapped functions are the addon's synchronous N-API functions -----

  /** What an addon function does when called: return a value, or throw a JavaScript exception. */
  datatype AddonCall = Returned(value: JsValue) | Threw(exception: JsValue)

  /** The addon functions never call a callback argument, so the only signal they give is a throw. */
  function AddonSignals(call: AddonCall): (signals: seq<Signal>)
    ensures |signals| <= 1
    ensures signals == [] <==> call.Returned?
    ensures forall k :: 0 <= k < |signals| ==> signals[k] == SyncThrow(call.exception)
  {
    match call
    case Returned(_) => []
    case Threw(e) => [SyncThrow(e)]
  }

  /** promisify over an addon function: a call that succeeds leaves the promise pending for ever. */
  lemma PromisifiedAddonNeverFulfills(call: AddonCall)
    ensures !Promisify(AddonSignals(call)).Fulfilled?
    ensures Promisify(AddonSignals(call)).Pending? <==> call.Returned?
    ensures call.Threw? ==> Promisify(AddonSignals(call)) == Rejected(call.exception)
  {
    FirstSignalDecides(AddonSignals(call));
  }

  /** A bridge for synchronous functions: settle from the return value or the exception. */
  function CallAddon(call: AddonCall): (p: Promise<JsValue>)
    ensures !p.Pending?
    ensures p.Fulfilled? <==> call.Returned?
    ensures call.Returned? ==> p.value == call.value
    ensures call.Threw? ==> p == Promisify(AddonSignals(call))
  {
    FirstSignalDecides(AddonSignals(call));
    match call
    case Returned(v) => Fulfilled(v)
    case Threw(e) => Rejected(e)
  }
}
