/** The edge server and the operator's receiver, taken together. */
module Link {
  import opened Wrappers
  import opened Nms
  import opened EdgeReport
  import opened Framing
  import opened EdgeServer
  import opened Receiver

  /**
   * A report the server sends arrives intact: if the connection carries the
   * server's frame, in any chunking, and ends by a close or a timeout, the
   * receiver accepts exactly that report, provided the JSON decoding inverts
   * the encoding on it.
   */
  lemma ReportArrives(files: seq<string>, inference: Inference, sort: Sorter, report: Report,
                      encode: Encoder, decode: Decoder, c: Connection)
    requires report == BuildReport(files, inference, sort)
    requires decode(encode(report)) == Some(report)
    requires |encode(report)| <= SendCap
    requires Concat(UntilClose(c.chunks)) == Frame(encode(report))
    requires ClosedByPeer(c.chunks) || c.end == TimedOut
    ensures Accepted(c, decode) == Some(report)
  {
    ReportWellFormed(files, inference, sort);
    CappedFrameSendable(encode(report));
  }

  /**
   * The server compares raw bytes where the code compares the decoded text:
   * an ASCII request is the trigger exactly when it is the text
   * `START_DETECTION`, which the operator sends.
   */
  lemma TriggerIsExactText(s: string)
    requires forall i :: 0 <= i < |s| ==> s[i] as int < 128
    ensures Ascii(s) == TriggerToken <==> s == "START_DETECTION"
  {
    var t := "START_DETECTION";
    if Ascii(s) == TriggerToken {
      assert |s| == |t|;
      forall i | 0 <= i < |s| ensures s[i] == t[i] {
        assert Ascii(s)[i] == Ascii(t)[i];
      }
    }
  }
}
