/**
 * The operator window's guard against concurrent detection requests: the
 * `detection_in_progress` flag and the start button it disables.
 */
module Operator {

  /** The two fields the window keeps about a pending request. */
  datatype Busy = Busy(inProgress: bool, buttonEnabled: bool)

  /** What reaches the window's handlers. */
  datatype Event =
    | Click(launchOk: bool)        // start button; `launchOk` is false when starting the request thread raises
    | RequestResult(success: bool) // the request thread's `request_completed` signal
    | ReportShown                  // `display_report`, on its normal path or its exception path

  datatype Effect = Effect(next: Busy, issued: bool)

  const Idle: Busy := Busy(false, true)

  /** The button is enabled exactly when no detection is in progress. */
  predicate Consistent(b: Busy)
  {
    b.buttonEnabled == !b.inProgress
  }

  /** An event that can end a pending detection. */
  predicate Clears(e: Event)
  {
    e == ReportShown || e == RequestResult(false)
  }

  /** One handler run: the new flags and whether a trigger request was issued. */
  function Step(b: Busy, e: Event): (r: Effect)
    ensures r.issued ==> !b.inProgress && r.next.inProgress
    ensures !b.inProgress && e == Click(true) ==> r == Effect(Busy(true, false), true)
    ensures !b.inProgress && e == Click(false) ==> r == Effect(Idle, false)
    ensures b.inProgress && e.Click? ==> r == Effect(b, false)
    ensures Clears(e) ==> r.next == Idle && !r.issued
    ensures e == RequestResult(true) ==> r == Effect(b, false)
  {
    match e
    case Click(launchOk) =>
      if b.inProgress then Effect(b, false)
      else if launchOk then Effect(Busy(true, false), true)
      else Effect(Idle, false)
    case RequestResult(success) =>
      if success then Effect(b, false) else Effect(Idle, false)
    case ReportShown => Effect(Idle, false)
  }

  lemma StepConsistent(b: Busy, e: Event)
    requires Consistent(b)
    ensures Consistent(Step(b, e).next)
  {
  }

  /** The flags after a sequence of events, starting from `b`. */
  function Run(b: Busy, es: seq<Event>): Busy
  {
    if es == [] then b else Step(Run(b, es[..|es| - 1]), es[|es| - 1]).next
  }

  /** Whether the event at position `i` issued a trigger request. */
  function IssuedAt(b: Busy, es: seq<Event>, i: nat): bool
    requires i < |es|
  {
    Step(Run(b, es[..i]), es[i]).issued
  }

  lemma {:induction false} RunConsistent(b: Busy, es: seq<Event>)
    requires Consistent(b)
    ensures Consistent(Run(b, es))
  {
    if es != [] {
      RunConsistent(b, es[..|es| - 1]);
      StepConsistent(Run(b, es[..|es| - 1]), es[|es| - 1]);
    }
  }

  lemma RunPrefix(b: Busy, es: seq<Event>, m: nat)
    requires 0 < m <= |es|
    ensures Run(b, es[..m]) == Step(Run(b, es[..m - 1]), es[m - 1]).next
  {
    assert es[..m][..m - 1] == es[..m - 1];
  }

  /** Once a request is issued the window stays busy until a clearing event. */
  lemma {:induction false} BusyUntilCleared(b: Busy, es: seq<Event>, i: nat, m: nat)
    requires i < m <= |es|
    requires IssuedAt(b, es, i)
    requires forall k :: i < k < m ==> !Clears(es[k])
    ensures Run(b, es[..m]).inProgress
    decreases m
  {
    RunPrefix(b, es, m);
    if m > i + 1 {
      BusyUntilCleared(b, es, i, m - 1);
    }
  }

  /**
   * Between two trigger requests there is always an event that ended the first
   * detection: a failed request or a displayed report.
   */
  lemma OneRequestAtATime(b: Busy, es: seq<Event>, i: nat, j: nat)
    requires i < j < |es|
    requires IssuedAt(b, es, i) && IssuedAt(b, es, j)
    ensures exists k :: i < k < j && Clears(es[k])
  {
    if forall k :: i < k < j ==> !Clears(es[k]) {
      BusyUntilCleared(b, es, i, j);
      assert false;
    }
  }

  /** The main window's two flags, updated in place by its handlers. */
  class OperatorWindow {
    var detectionInProgress: bool
    var buttonEnabled: bool

    ghost predicate Valid()
      reads this
    {
      Consistent(Busy(detectionInProgress, buttonEnabled))
    }

    function State(): Busy
      reads this
    {
      Busy(detectionInProgress, buttonEnabled)
    }

    constructor ()
      ensures Valid() && State() == Idle
    {
      detectionInProgress := false;
      buttonEnabled := true;
    }

    /** `start_detection`: returns whether the trigger request thread was started. */
    method StartDetection(launchOk: bool) returns (issued: bool)
      requires Valid()
      modifies this
      ensures Valid()
      ensures Effect(State(), issued) == Step(old(State()), Click(launchOk))
    {
      if detectionInProgress {
        issued := false;
        return;
      }
      detectionInProgress := true;
      buttonEnabled := false;
      if launchOk {
        issued := true;
      } else {
        detectionInProgress := false;
        buttonEnabled := true;
        issued := false;
      }
    }

    /** `handle_request_result`: a failed request re-enables the button. */
    method HandleRequestResult(success: bool)
      requires Valid()
      modifies this
      ensures Valid()
      ensures State() == Step(old(State()), RequestResult(success)).next
    {
      if !success {
        detectionInProgress := false;
        buttonEnabled := true;
      }
    }

    /** `display_report`: both its paths end the detection. */
    method DisplayReport()
      requires Valid()
      modifies this
      ensures Valid()
      ensures State() == Step(old(State()), ReportShown).next
    {
      detectionInProgress := false;
      buttonEnabled := true;
    }
  }
}
