/** The `/ocr` request handler: store the upload, run the recognition
    engine, fold its detections into the response, and turn any failure
    into the failure response. Storing the file and running the engine are
    inputs that either succeed or fail with a message. */
module Ocr {
  import opened TextLines
  import opened Confidence

  /** One text region reported by the engine. Only the text and the
      confidence are read; the bounding box is not part of the model. */
  datatype Detection = Detection(text: string, confidence: real)

  /** One element of the response's `lines` array. Its confidence stays on
      the engine's 0-1 scale. */
  datatype LineRecord = LineRecord(text: string, confidence: real)

  /** The handler's answer. `Success?` is the `success` flag; a failure
      carries nothing but the message. */
  datatype Response =
    | Success(filename: string, text: string, confidence: real, lineCount: nat, lines: seq<LineRecord>)
    | Failure(error: string)

  /** The outcome of a step that may raise: a value, or the message the
      exception stringifies to. */
  datatype Result<T> = Ok(value: T) | Err(message: string)

  /** A JSON value, as the web framework serializes the returned dict. */
  datatype Json =
    | JBool(b: bool)
    | JNumber(n: real)
    | JString(s: string)
    | JArray(items: seq<Json>)
    | JObject(fields: map<string, Json>)

  /** The texts of the detections, in detection order. */
  function Texts(ds: seq<Detection>): seq<string>
  {
    seq(|ds|, i requires 0 <= i < |ds| => ds[i].text)
  }

  /** The confidences of the detections, in detection order. */
  function Confidences(ds: seq<Detection>): seq<real>
  {
    seq(|ds|, i requires 0 <= i < |ds| => ds[i].confidence)
  }

  /** Python's `zip` into line records: pairs up to the shorter list. */
  function Zip(texts: seq<string>, confs: seq<real>): (z: seq<LineRecord>)
    ensures |z| == if |texts| <= |confs| then |texts| else |confs|
    ensures forall i :: 0 <= i < |z| ==> z[i].text == texts[i] && z[i].confidence == confs[i]
    ensures |texts| <= |confs| ==> LineTexts(z) == texts
  {
    var n := if |texts| <= |confs| then |texts| else |confs|;
    seq(n, i requires 0 <= i < n => LineRecord(texts[i], confs[i]))
  }

  /** The texts of line records, in order. */
  function LineTexts(lines: seq<LineRecord>): seq<string>
  {
    seq(|lines|, i requires 0 <= i < |lines| => lines[i].text)
  }

  /** The response for a recognized result: what the handler computes once
      storing and recognition have succeeded. */
  function Aggregate(filename: string, ds: seq<Detection>): (r: Response)
    ensures r.Success? && r.filename == filename
    ensures r.lineCount == |r.lines| == |ds|
  {
    var texts := Texts(ds);
    var confs := Confidences(ds);
    Success(filename, Join(texts), Round2(MeanPercent(confs)), |texts|, Zip(texts, confs))
  }

  /** The loop over the engine's result: append each detection's text and
      confidence to two lists that grow in step. */
  method CollectDetections(result: seq<Detection>) returns (textLines: seq<string>, confidences: seq<real>)
    ensures |textLines| == |confidences| == |result|
    ensures textLines == Texts(result)
    ensures confidences == Confidences(result)
  {
    textLines := [];
    confidences := [];
    for i := 0 to |result|
      invariant |textLines| == |confidences| == i
      invariant forall k :: 0 <= k < i ==> textLines[k] == result[k].text
      invariant forall k :: 0 <= k < i ==> confidences[k] == result[k].confidence
    {
      var detection := result[i];
      var text := detection.text;
      var confidence := detection.confidence;
      textLines := textLines + [text];
      confidences := confidences + [confidence];
    }
  }

  /** The whole handler. A failed store or a failed recognition gives the
      failure response with that step's message (recognition is not reached
      when storing fails); otherwise the response is the aggregate of the
      detections. */
  method OcrEndpoint(filename: string, stored: Result<()>, recognized: Result<seq<Detection>>)
    returns (response: Response)
    ensures stored.Err? ==> response == Failure(stored.message)
    ensures stored.Ok? && recognized.Err? ==> response == Failure(recognized.message)
    ensures stored.Ok? && recognized.Ok? ==> response == Aggregate(filename, recognized.value)
  {
    if stored.Err? {
      return Failure(stored.message);
    }
    if recognized.Err? {
      return Failure(recognized.message);
    }
    var textLines, confidences := CollectDetections(recognized.value);
    var fullText := Join(textLines);
    var avgConfidence := MeanPercent(confidences);
    response := Success(filename, fullText, Round2(avgConfidence), |textLines|, Zip(textLines, confidences));
  }

  /** The dict the handler returns, as JSON. */
  function ToJson(r: Response): (j: map<string, Json>)
    ensures r.Success? ==> j.Keys == {"success", "filename", "text", "confidence", "line_count", "lines"}
    ensures r.Failure? ==> j.Keys == {"success", "error"}
    ensures "success" in j && j["success"] == JBool(r.Success?)
  {
    match r
    case Success(filename, text, confidence, lineCount, lines) =>
      map[
        "success" := JBool(true),
        "filename" := JString(filename),
        "text" := JString(text),
        "confidence" := JNumber(confidence),
        "line_count" := JNumber(lineCount as real),
        "lines" := JArray(seq(|lines|, i requires 0 <= i < |lines| =>
                     JObject(map["text" := JString(lines[i].text), "confidence" := JNumber(lines[i].confidence)])))
      ]
    case Failure(error) =>
      map["success" := JBool(false), "error" := JString(error)]
  }

  /** Line record i holds detection i's text and its unscaled confidence. */
  lemma AggregateLinesInOrder(filename: string, ds: seq<Detection>, i: nat)
    requires i < |ds|
    ensures i < |Aggregate(filename, ds).lines|
    ensures Aggregate(filename, ds).lines[i] == LineRecord(ds[i].text, ds[i].confidence)
  {
  }

  /** Joining the texts of the line records gives the response's text. */
  lemma AggregateLinesJoinToText(filename: string, ds: seq<Detection>)
    ensures Join(LineTexts(Aggregate(filename, ds).lines)) == Aggregate(filename, ds).text
  {
    assert LineTexts(Aggregate(filename, ds).lines) == Texts(ds);
  }

  /** The text has one segment per line when no detected text holds a
      newline; otherwise segments and lines can disagree. */
  lemma AggregateTextSegments(filename: string, ds: seq<Detection>)
    requires |ds| > 0
    requires forall i :: 0 <= i < |ds| ==> Newline !in ds[i].text
    ensures Split(Aggregate(filename, ds).text) == Texts(ds)
    ensures |Split(Aggregate(filename, ds).text)| == Aggregate(filename, ds).lineCount
  {
    SplitJoin(Texts(ds));
  }

  /** No detections is still a success: empty text, zero confidence, no lines. */
  lemma AggregateEmpty(filename: string)
    ensures Aggregate(filename, []) == Success(filename, "", 0.0, 0, [])
  {
    Round2Exact(0);
  }

  /** The text is empty exactly when there are no detections or one
      detection with empty text. */
  lemma AggregateTextEmptyIff(filename: string, ds: seq<Detection>)
    ensures Aggregate(filename, ds).text == "" <==> (|ds| == 0 || (|ds| == 1 && ds[0].text == ""))
  {
    JoinEmptyIff(Texts(ds));
    if |ds| == 1 {
      assert Texts(ds) == [ds[0].text];
    }
  }

  /** The reported confidence is the mean percentage of the detection
      confidences within half a hundredth, and a whole number of
      hundredths. */
  lemma AggregateConfidenceIsRoundedMean(filename: string, ds: seq<Detection>)
    ensures var c := Aggregate(filename, ds).confidence;
            var m := MeanPercent(Confidences(ds));
            m - 0.005 <= c <= m + 0.005 && (c * 100.0).Floor as real == c * 100.0
  {
  }

  /** With detection confidences on the 0-1 scale, the aggregate lies on the
      0-100 scale, rounded or not, while every line record stays on 0-1. */
  lemma AggregateConfidenceScales(filename: string, ds: seq<Detection>)
    requires forall i :: 0 <= i < |ds| ==> 0.0 <= ds[i].confidence <= 1.0
    ensures 0.0 <= MeanPercent(Confidences(ds)) <= 100.0
    ensures 0.0 <= Aggregate(filename, ds).confidence <= 100.0
    ensures forall i :: 0 <= i < |Aggregate(filename, ds).lines| ==>
              0.0 <= Aggregate(filename, ds).lines[i].confidence <= 1.0
  {
    var confs := Confidences(ds);
    assert AllWithin(confs, 0.0, 1.0) by {
      forall i | 0 <= i < |confs| ensures 0.0 <= confs[i] <= 1.0 {
        assert confs[i] == ds[i].confidence;
      }
    }
    UnitConfidencesGivePercent(confs);
    Round2KeepsPercentRange(MeanPercent(confs));
  }

  /** Two detections with confidences 0.90 and 0.80 read "Hello\nWorld" at 85%. */
  lemma AggregateHelloWorld()
    ensures Aggregate("scan.png", [Detection("Hello", 0.90), Detection("World", 0.80)])
         == Success("scan.png", "Hello\nWorld", 85.0, 2,
                    [LineRecord("Hello", 0.90), LineRecord("World", 0.80)])
  {
    var ds := [Detection("Hello", 0.90), Detection("World", 0.80)];
    var confs := Confidences(ds);
    assert confs == [0.90, 0.80];
    assert Sum(confs) == 1.70 by {
      assert confs[..1] == [0.90];
      assert confs[..1][..0] == [];
      assert Sum([]) == 0.0;
      assert Sum([0.90]) == Sum([0.90][..0]) + 0.90;
      assert Sum(confs) == Sum(confs[..1]) + 0.80;
    }
    assert MeanPercent(confs) == 85.0;
    Round2Exact(8500);
    assert Texts(ds) == ["Hello", "World"];
    assert Join(["Hello", "World"]) == "Hello" + [Newline] + "World";
  }

  /** A failure response has only the `success` flag, false, and the message. */
  lemma FailureShape(message: string)
    ensures ToJson(Failure(message)) == map["success" := JBool(false), "error" := JString(message)]
    ensures "text" !in ToJson(Failure(message)) && "confidence" !in ToJson(Failure(message))
    ensures "lines" !in ToJson(Failure(message))
  {
  }
}
