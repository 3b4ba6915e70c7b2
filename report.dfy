/**
 * Per-image post-processing and report assembly on the edge device
 * (EdgeDetectionServer.detect_defects): confidence mask and suppression,
 * class filter, remap to original-image pixels, and the batch report.
 */
module EdgeReport {
  import opened Wrappers
  import opened Nms

  const DefectClassId: real := 0.0
  const ConfidenceThreshold: real := 0.5
  const IouThreshold: real := 0.45
  /** Side of the square model input. */
  const ModelSize: real := 640.0
  const ReportHeader: string := "insulator_error"

  /** One entry of `defects`: `bbox` in original-image pixels and the confidence. */
  datatype DefectBox = DefectBox(x1: int, y1: int, x2: int, y2: int, confidence: real)

  /** One entry of `defect_details`. */
  datatype ImageRecord = ImageRecord(filename: string, defectCount: int, defects: seq<DefectBox>)

  /** The `fault_data` dictionary built for one run. */
  datatype Report = Report(header: string, count: int, defectDetails: seq<ImageRecord>)

  /**
   * What reading, preprocessing and inference give for one file: either an
   * exception somewhere on the way, or the candidate rows together with the
   * original width and height of the image.
   */
  datatype Analysis = Failed | Analysed(prediction: seq<Row>, origW: nat, origH: nat)

  type Inference = string -> Analysis

  /** Python's `int()` on a float: truncation toward zero. */
  function Trunc(v: real): (r: int)
    ensures 0.0 <= v ==> 0 <= r && r as real <= v < r as real + 1.0
    ensures v < 0.0 ==> r <= 0 && r as real - 1.0 < v <= r as real
  {
    if v >= 0.0 then v.Floor else -((-v).Floor)
  }

  /** `int(v * orig / 640)`. */
  function Scale(v: real, orig: int): int
  {
    Trunc(v * orig as real / ModelSize)
  }

  /** The box of one kept row in original-image pixels. */
  function Remap(det: Row, w: int, h: int): DefectBox
  {
    DefectBox(Scale(det.x1, w), Scale(det.y1, h), Scale(det.x2, w), Scale(det.y2, h), det.conf)
  }

  lemma TruncMonotone(u: real, v: real)
    requires u <= v
    ensures Trunc(u) <= Trunc(v)
  {
    if 0.0 <= u {
    } else if v < 0.0 {
      assert Trunc(u) as real <= Trunc(v) as real + 1.0;
      assert -u >= -v;
      assert (-v).Floor <= (-u).Floor;
    }
  }

  lemma MulMonotone(u: real, v: real, o: real)
    requires u <= v && o >= 0.0
    ensures u * o <= v * o
  {
    assert (v - u) * o >= 0.0;
  }

  lemma ScaleMonotone(u: real, v: real, orig: int)
    requires u <= v && orig >= 0
    ensures Scale(u, orig) <= Scale(v, orig)
  {
    var o := orig as real;
    var a, b := u * o / ModelSize, v * o / ModelSize;
    assert a <= b by {
      MulMonotone(u, v, o);
    }
    TruncMonotone(a, b);
  }

  /** Remapping keeps each corner pair in order when the image sizes are not negative. */
  lemma RemapKeepsCornerOrder(det: Row, w: int, h: int)
    requires w >= 0 && h >= 0
    ensures det.x1 <= det.x2 ==> Remap(det, w, h).x1 <= Remap(det, w, h).x2
    ensures det.y1 <= det.y2 ==> Remap(det, w, h).y1 <= Remap(det, w, h).y2
  {
    if det.x1 <= det.x2 {
      ScaleMonotone(det.x1, det.x2, w);
    }
    if det.y1 <= det.y2 {
      ScaleMonotone(det.y1, det.y2, h);
    }
  }

  /** `[320, 320, 640, 640]` in a 1280x720 image becomes `[640, 360, 1280, 720]`. */
  lemma RemapExample(conf: real)
    ensures Remap(Row(320.0, 320.0, 640.0, 640.0, conf, 0.0), 1280, 720) == DefectBox(640, 360, 1280, 720, conf)
  {
    assert 320.0 * 1280.0 / 640.0 == 640.0;
    assert 320.0 * 720.0 / 640.0 == 360.0;
    assert 640.0 * 1280.0 / 640.0 == 1280.0;
    assert 640.0 * 720.0 / 640.0 == 720.0;
  }

  /** Nothing keeps corners apart: a one-pixel-wide box in a 100x100 image collapses to width zero. */
  lemma RemapCanCollapse()
    ensures var b := Remap(Row(1.0, 1.0, 2.0, 2.0, 0.9, 0.0), 100, 100);
      b.x1 == b.x2 == 0 && b.y1 == b.y2 == 0
  {
    assert 1.0 * 100.0 / 640.0 == 0.15625;
    assert 2.0 * 100.0 / 640.0 == 0.3125;
  }

  /** The class filter after suppression: target class and confidence re-checked. */
  predicate IsDefect(det: Row)
  {
    det.cls == DefectClassId && det.conf >= ConfidenceThreshold
  }

  /** `defect_boxes` for the kept rows, built in keep order. */
  function DefectsOf(kept: seq<Row>, w: int, h: int): (r: seq<DefectBox>)
    ensures |r| <= |kept|
    ensures forall i :: 0 <= i < |r| ==> r[i].confidence >= ConfidenceThreshold
    ensures r == [] <==> forall j :: 0 <= j < |kept| ==> !IsDefect(kept[j])
  {
    if kept == [] then []
    else
      var last := kept[|kept| - 1];
      var front := kept[..|kept| - 1];
      assert forall j :: 0 <= j < |front| ==> front[j] == kept[j];
      DefectsOf(front, w, h) + (if IsDefect(last) then [Remap(last, w, h)] else [])
  }

  /** Every reported box is the remap of a kept row of the target class. */
  lemma {:induction false} DefectsFromKept(kept: seq<Row>, w: int, h: int, i: nat)
    requires i < |DefectsOf(kept, w, h)|
    ensures exists j :: 0 <= j < |kept| && IsDefect(kept[j]) && DefectsOf(kept, w, h)[i] == Remap(kept[j], w, h)
  {
    var front := kept[..|kept| - 1];
    var last := kept[|kept| - 1];
    if i < |DefectsOf(front, w, h)| {
      DefectsFromKept(front, w, h, i);
      var j :| 0 <= j < |front| && IsDefect(front[j]) && DefectsOf(front, w, h)[i] == Remap(front[j], w, h);
      assert kept[j] == front[j];
    } else {
      assert DefectsOf(kept, w, h)[i] == Remap(last, w, h);
    }
  }

  /** The filter works row by row: the boxes of a concatenation are concatenated, in keep order. */
  lemma {:induction false} DefectsOfAppend(a: seq<Row>, b: seq<Row>, w: int, h: int)
    ensures DefectsOf(a + b, w, h) == DefectsOf(a, w, h) + DefectsOf(b, w, h)
    decreases |b|
  {
    if b == [] {
      assert a + b == a;
    } else {
      var front := b[..|b| - 1];
      assert (a + b)[..|a + b| - 1] == a + front;
      assert (a + b)[|a + b| - 1] == b[|b| - 1];
      DefectsOfAppend(a, front, w, h);
    }
  }

  /** One kept row yields its remapped box exactly when it passes the class filter. */
  lemma DefectsOfOne(det: Row, w: int, h: int)
    ensures DefectsOf([det], w, h) == if IsDefect(det) then [Remap(det, w, h)] else []
  {
    assert [det][..0] == [];
  }

  /** Every kept row of the target class is reported. */
  lemma DefectsComplete(kept: seq<Row>, w: int, h: int, j: nat)
    requires j < |kept| && IsDefect(kept[j])
    ensures Remap(kept[j], w, h) in DefectsOf(kept, w, h)
  {
    var pre, post := kept[..j], kept[j + 1..];
    assert kept == pre + [kept[j]] + post;
    DefectsOfAppend(pre + [kept[j]], post, w, h);
    DefectsOfAppend(pre, [kept[j]], w, h);
    DefectsOfOne(kept[j], w, h);
  }

  /** The inner `for det in pred_all` loop. */
  method CollectDefects(kept: seq<Row>, w: int, h: int) returns (boxes: seq<DefectBox>)
    ensures boxes == DefectsOf(kept, w, h)
  {
    boxes := [];
    var i := 0;
    while i < |kept|
      invariant 0 <= i <= |kept|
      invariant boxes == DefectsOf(kept[..i], w, h)
    {
      var det := kept[i];
      assert kept[..i + 1][..i] == kept[..i];
      if det.cls == DefectClassId && det.conf >= ConfidenceThreshold {
        boxes := boxes + [Remap(det, w, h)];
      }
      i := i + 1;
    }
    assert kept[..i] == kept;
  }

  function Lower(c: char): char
  {
    if 'A' <= c <= 'Z' then (c as int + 32) as char else c
  }

  function LowerAll(s: string): string
  {
    seq(|s|, i requires 0 <= i < |s| => Lower(s[i]))
  }

  predicate EndsWith(s: string, suffix: string)
  {
    |suffix| <= |s| && s[|s| - |suffix|..] == suffix
  }

  /** `filename.lower().endswith(('.png', '.jpg', '.jpeg'))`. */
  predicate IsImageName(name: string)
  {
    var l := LowerAll(name);
    EndsWith(l, ".png") || EndsWith(l, ".jpg") || EndsWith(l, ".jpeg")
  }

  /** The record one file adds to `defect_details`, if any. */
  function RecordOf(name: string, a: Analysis, sort: Sorter): Option<ImageRecord>
  {
    match a
    case Failed => None
    case Analysed(prediction, w, h) =>
      match NmsSpec(prediction, ConfidenceThreshold, IouThreshold, sort)
      case None => None
      case Some(kept) =>
        var boxes := DefectsOf(kept, w, h);
        if boxes == [] then None else Some(ImageRecord(name, |boxes|, boxes))
  }

  function Contribution(name: string, inference: Inference, sort: Sorter): seq<ImageRecord>
  {
    if !IsImageName(name) then []
    else
      match RecordOf(name, inference(name), sort)
      case None => []
      case Some(rec) => [rec]
  }

  /** `defect_details` after the files of `files` were visited in listing order. */
  function Details(files: seq<string>, inference: Inference, sort: Sorter): seq<ImageRecord>
  {
    if files == [] then []
    else Details(files[..|files| - 1], inference, sort) + Contribution(files[|files| - 1], inference, sort)
  }

  function BuildReport(files: seq<string>, inference: Inference, sort: Sorter): Report
  {
    var details := Details(files, inference, sort);
    Report(ReportHeader, |details|, details)
  }

  /** `detect_defects`: visit every listed file, skip failures, accumulate the report. */
  method DetectDefects(files: seq<string>, inference: Inference, sort: Sorter) returns (report: Report)
    requires AdmissibleSort(sort)
    ensures report == BuildReport(files, inference, sort)
  {
    var count := 0;
    var details: seq<ImageRecord> := [];
    var i := 0;
    while i < |files|
      invariant 0 <= i <= |files|
      invariant details == Details(files[..i], inference, sort)
      invariant count == |details|
    {
      var filename := files[i];
      assert files[..i + 1][..i] == files[..i];
      if IsImageName(filename) {
        var analysis := inference(filename);
        if analysis.Analysed? {
          var boxout := Suppress(analysis.prediction, ConfidenceThreshold, IouThreshold, sort);
          if boxout.Some? {
            var boxes := CollectDefects(boxout.value, analysis.origW, analysis.origH);
            if boxes != [] {
              count := count + 1;
              details := details + [ImageRecord(filename, |boxes|, boxes)];
            }
          }
        }
      }
      i := i + 1;
    }
    assert files[..i] == files;
    report := Report(ReportHeader, count, details);
  }

  /** Visiting two runs of files one after the other concatenates their records. */
  lemma {:induction false} DetailsAppend(fs: seq<string>, gs: seq<string>, inference: Inference, sort: Sorter)
    ensures Details(fs + gs, inference, sort) == Details(fs, inference, sort) + Details(gs, inference, sort)
    decreases |gs|
  {
    if gs == [] {
      assert fs + gs == fs;
    } else {
      var gs' := gs[..|gs| - 1];
      var g := gs[|gs| - 1];
      assert (fs + gs)[..|fs + gs| - 1] == fs + gs';
      assert (fs + gs)[|fs + gs| - 1] == g;
      DetailsAppend(fs, gs', inference, sort);
      var c := Contribution(g, inference, sort);
      assert Details(fs + gs, inference, sort) == Details(fs + gs', inference, sort) + c;
      assert Details(gs, inference, sort) == Details(gs', inference, sort) + c;
    }
  }

  /** A non-image name, or a file whose processing raised, contributes no record. */
  lemma NoRecord(f: string, inference: Inference, sort: Sorter)
    requires !IsImageName(f) || inference(f) == Failed
    ensures Details([f], inference, sort) == []
  {
    assert Contribution(f, inference, sort) == [] by {
      if IsImageName(f) {
        assert RecordOf(f, inference(f), sort) == None;
      }
    }
    assert [f][..0] == [];
  }

  /** A file that is not an image, or whose processing raised, adds nothing, and later files are still visited. */
  lemma FailureSkipped(fs: seq<string>, f: string, gs: seq<string>, inference: Inference, sort: Sorter)
    requires !IsImageName(f) || inference(f) == Failed
    ensures Details(fs + [f] + gs, inference, sort) == Details(fs, inference, sort) + Details(gs, inference, sort)
  {
    var front := Details(fs, inference, sort);
    assert Details(fs + [f], inference, sort) == front by {
      NoRecord(f, inference, sort);
      DetailsAppend(fs, [f], inference, sort);
      assert front + [] == front;
    }
    DetailsAppend(fs + [f], gs, inference, sort);
  }

  /** What every record of a report satisfies. */
  ghost predicate RecordInvariant(rec: ImageRecord, files: seq<string>)
  {
    && rec.filename in files
    && IsImageName(rec.filename)
    && rec.defectCount == |rec.defects| >= 1
    && forall d :: d in rec.defects ==> d.confidence >= ConfidenceThreshold
  }

  lemma {:induction false} DetailsInvariant(files: seq<string>, inference: Inference, sort: Sorter)
    ensures forall rec :: rec in Details(files, inference, sort) ==> RecordInvariant(rec, files)
  {
    if files != [] {
      var front := files[..|files| - 1];
      var f := files[|files| - 1];
      DetailsInvariant(front, inference, sort);
      forall rec | rec in Details(files, inference, sort) ensures RecordInvariant(rec, files) {
        if rec in Details(front, inference, sort) {
          assert RecordInvariant(rec, front);
          assert rec.filename in front;
          var k :| 0 <= k < |front| && front[k] == rec.filename;
          assert files[k] == rec.filename;
        } else {
          assert rec in Contribution(f, inference, sort);
          var a := inference(f);
          var kept := NmsSpec(a.prediction, ConfidenceThreshold, IouThreshold, sort).value;
          var boxes := DefectsOf(kept, a.origW, a.origH);
          assert rec == ImageRecord(f, |boxes|, boxes);
          forall d | d in rec.defects ensures d.confidence >= ConfidenceThreshold {
            var k :| 0 <= k < |boxes| && boxes[k] == d;
          }
        }
      }
    }
  }

  /**
   * The report of any run: the fixed header, `count` equal to the number of
   * records, and every record names a listed image file with between one and
   * `defect_count` defects, each above the confidence threshold.
   */
  lemma ReportWellFormed(files: seq<string>, inference: Inference, sort: Sorter)
    ensures BuildReport(files, inference, sort).header == ReportHeader
    ensures BuildReport(files, inference, sort).count == |BuildReport(files, inference, sort).defectDetails|
    ensures forall rec :: rec in BuildReport(files, inference, sort).defectDetails ==> RecordInvariant(rec, files)
  {
    DetailsInvariant(files, inference, sort);
  }

  /** Each reported defect is the remap of a row that survived suppression and has the target class. */
  lemma RecordFromSuppression(name: string, prediction: seq<Row>, w: nat, h: nat, sort: Sorter, rec: ImageRecord, i: nat)
    requires RecordOf(name, Analysed(prediction, w, h), sort) == Some(rec)
    requires i < |rec.defects|
    ensures NmsSpec(prediction, ConfidenceThreshold, IouThreshold, sort).Some?
    ensures var kept := NmsSpec(prediction, ConfidenceThreshold, IouThreshold, sort).value;
      exists j :: 0 <= j < |kept| && IsDefect(kept[j]) && rec.defects[i] == Remap(kept[j], w, h)
  {
    var kept := NmsSpec(prediction, ConfidenceThreshold, IouThreshold, sort).value;
    DefectsFromKept(kept, w, h, i);
  }
}
