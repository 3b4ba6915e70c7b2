/**
 * The edge server's per-connection handling: on the exact trigger token it
 * runs a detection pass, refuses reports over 5 MiB, sends the framed report
 * to the operator, and keeps a local copy when sending fails.
 */
module EdgeServer {
  import opened Wrappers
  import opened Nms
  import opened EdgeReport
  import opened Framing

  /** Largest payload the server will send: 5 MiB. */
  const SendCap: nat := 5 * 1024 * 1024

  /** `'START_DETECTION'`, the only accepted trigger. */
  const TriggerToken: seq<byte> := Ascii("START_DETECTION")

  /** The JSON encoding of a report, which the model leaves abstract. */
  type Encoder = Report -> seq<byte>

  datatype Outcome =
    | Ignored                   // anything but the token: no detection runs
    | ListingFailed             // `os.listdir` of the input directory raised
    | TooLarge(size: nat)       // the `ValueError` for payloads over the cap
    | Sent(frame: seq<byte>)    // header and payload written to the operator
    | SavedLocally(report: Report) // sending failed; `detection_report.json` rewritten

  /** Every frame the server writes passes the receiver's framing check and fits its cap. */
  ghost predicate SendableFrame(frame: seq<byte>)
  {
    SplitFrame(frame).Ok? && |frame| <= 10 * 1024 * 1024
  }

  /** A report as `detect_defects` builds it. */
  ghost predicate WellFormedReport(r: Report)
  {
    r.header == ReportHeader && r.count == |r.defectDetails|
  }

  lemma CappedFrameSendable(payload: seq<byte>)
    requires |payload| <= SendCap
    ensures SendableFrame(Frame(payload))
    ensures SplitFrame(Frame(payload)) == Ok(payload)
  {
    assert Pow10(7) == 10000000;
    DecimalLength(|payload|, 7);
    FrameRoundTrip(payload);
    FrameLength(payload);
  }

  /** The server's lasting effects: frames sent to the operator and the fallback file. */
  class EdgeDetectionServer {
    var sentFrames: seq<seq<byte>>
    var fallbackFile: Option<Report>

    ghost predicate Valid()
      reads this
    {
      (forall i :: 0 <= i < |sentFrames| ==> SendableFrame(sentFrames[i]))
      && (fallbackFile.Some? ==> WellFormedReport(fallbackFile.value))
    }

    constructor ()
      ensures Valid() && sentFrames == [] && fallbackFile == None
    {
      sentFrames := [];
      fallbackFile := None;
    }

    /**
     * One accepted connection. `trigger` is what the first `recv` returned,
     * `listing` the listing of the input directory (`None` when `os.listdir`
     * raises), and `reachable` whether connecting to and writing to the
     * operator succeeds.
     */
    method HandleConnection(trigger: seq<byte>, listing: Option<seq<string>>, inference: Inference, sort: Sorter,
                            encode: Encoder, reachable: bool) returns (outcome: Outcome)
      requires AdmissibleSort(sort)
      requires Valid()
      modifies this
      ensures Valid()
      ensures trigger != TriggerToken ==> outcome == Ignored && unchanged(this)
      ensures trigger == TriggerToken && listing.None? ==> outcome == ListingFailed && unchanged(this)
      ensures trigger == TriggerToken && listing.Some? ==>
        var report := BuildReport(listing.value, inference, sort);
        var payload := encode(report);
        if |payload| > SendCap then
          outcome == TooLarge(|payload|) && unchanged(this)
        else if reachable then
          outcome == Sent(Frame(payload)) && sentFrames == old(sentFrames) + [Frame(payload)]
          && fallbackFile == old(fallbackFile)
        else
          outcome == SavedLocally(report) && fallbackFile == Some(report) && sentFrames == old(sentFrames)
    {
      if trigger != TriggerToken {
        return Ignored;
      }
      if listing.None? {
        return ListingFailed;
      }
      var files := listing.value;
      var report := DetectDefects(files, inference, sort);
      ReportWellFormed(files, inference, sort);
      var payload := encode(report);
      if |payload| > SendCap {
        return TooLarge(|payload|);
      }
      if reachable {
        var frame := Frame(payload);
        CappedFrameSendable(payload);
        sentFrames := sentFrames + [frame];
        outcome := Sent(frame);
      } else {
        fallbackFile := Some(report);
        outcome := SavedLocally(report);
      }
    }
  }
}
