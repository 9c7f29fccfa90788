/**
 * The outcome bridge: the single value an operation's observable emits for
 * the one event its native request fires.
 */
module Bridge {
  import opened Wrappers
  import opened IndexedDb

  /**
   * What an observable built by the service has emitted: nothing (`Silent`),
   * one value (`Next`), or an `Error` carrying `message` (`Raised`).
   */
  datatype Emission<+T> = Silent | Next(value: T) | Raised(message: string)

  /** The message of the Error raised for a failed request; `context` names the operation. */
  function ErrorMessage(context: string): (m: string)
    ensures |m| == |context| + 17
    ensures m[..10] == "IndexedDB " && m[|m| - 7..] == " issue."
    ensures m[10..|m| - 7] == context
  {
    "IndexedDB " + context + " issue."
  }

  /** The message names its context exactly: two contexts share a message only if they are equal. */
  lemma ErrorMessageInjective(a: string, b: string)
    ensures ErrorMessage(a) == ErrorMessage(b) <==> a == b
  {
  }

  /** `toSuccessObservable`: `true` once the request's success event fires, nothing on error. */
  function ToSuccessObservable(fired: Outcome): (emitted: Option<bool>)
    ensures emitted.Some? <==> fired == Success
    ensures emitted != Some(false)
  {
    if fired == Success then Some(true) else None
  }

  /**
   * `toErrorObservable`: once the request's error event fires, the Error whose
   * message embeds `error` (by default the empty context); nothing on success.
   */
  function ToErrorObservable(fired: Outcome, error: string := ""): (raised: Option<string>)
    ensures raised.Some? <==> fired == Error
    ensures raised.Some? ==> raised.value == ErrorMessage(error)
  {
    if fired == Error then Some(ErrorMessage(error)) else None
  }

  /**
   * `Observable.merge(success, failure).first()`: the first of the two
   * sources to emit. They watch the two events of one request, which never
   * both fire, so at most one of them has emitted.
   */
  function MergeFirst<T>(success: Option<T>, failure: Option<string>): (r: Emission<T>)
    requires !(success.Some? && failure.Some?)
    ensures r.Silent? <==> success.None? && failure.None?
    ensures r.Next? <==> success.Some?
    ensures r.Next? ==> success == Some(r.value)
    ensures r.Raised? ==> failure == Some(r.message)
  {
    match success
    case Some(v) => Next(v)
    case None =>
      match failure
      case Some(m) => Raised(m)
      case None => Silent
  }

  /**
   * Every native request yields exactly one result through the bridge:
   * `true` on success, the contextual Error on error, never nothing.
   */
  lemma BridgeYieldsOneResult(fired: Outcome, context: string)
    ensures MergeFirst(ToSuccessObservable(fired), ToErrorObservable(fired, context)) ==
      if fired == Success then Next(true) else Raised(ErrorMessage(context))
  {
  }
}
