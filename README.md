# Smart OCR system: the `/ocr` handler, modelled in Dafny

The service accepts an uploaded image and stores it under `uploads/`. It runs the
EasyOCR engine on the image and returns JSON. On success the JSON holds the
recognized text, a per-line record for each detection, the line count and an
aggregate confidence. On any failure it holds only `success: false` and the error
message.

This project models that handler (`ocr_endpoint`) in three modules:

- `TextLines` (`text_lines.dfy`): joining the detected texts with a newline (`Join`).
  It also defines the inverse split at newlines (`Split`), the partner against which
  the join is proved.
- `Confidence` (`confidence.dfy`): Python's left-to-right `sum`, and the mean
  percentage `sum / len * 100` with 0 for an empty list (`MeanPercent`). It also
  defines `round(x, 2)` on exact reals: the nearest hundredth, an exact half going
  to the even hundredth (`RoundHalfEven`, `Round2`).
- `Ocr` (`ocr.dfy`): the detection, line-record, response and JSON datatypes. It
  also holds these members:
  - `CollectDetections`: the accumulating loop, as a method over two sequences that
    grow in step.
  - `Aggregate`: the functional specification of a successful response.
  - `OcrEndpoint`: the whole handler, with storing the upload and running the
    engine as inputs that either succeed or carry the exception's message.
  - `ToJson`: the dict the handler returns.

In the source the per-line confidence stays on the engine's 0-1 scale, while the
aggregate is on 0-100. The model keeps both scales as they are.

One might expect the number of newline-separated segments of `text` to equal
`line_count`. The code does not ensure this when a detected text itself holds a
newline. The model follows the code:

- `AggregateTextSegments` proves the property for newline-free texts.
- `SplitJoinOfPartWithNewline` shows the one-part text `"a\nb"` splitting into two
  segments.

## Model

| member | source | states |
|---|---|---|
| `TextLines.Join` | backend/main.py:123 | No parts give `""` and one part gives that part. The joined length is the parts' total length plus one newline between each pair of neighbours. |
| `TextLines.JoinAppend` | backend/main.py:123 | Joining two non-empty runs of parts equals their two joins with one newline between them. |
| `TextLines.JoinEmptyIff` | backend/main.py:123 | The join is empty if and only if there are no parts or exactly one empty part. |
| `TextLines.JoinSplit` | backend/main.py:123 | Joining the newline-separated pieces of any text gives back the same text. |
| `TextLines.SplitJoin` | backend/main.py:123 | Splitting the join of one or more newline-free parts at newlines gives back exactly those parts, in order. |
| `TextLines.SplitJoinOfPartWithNewline` | backend/main.py:123 | A single part containing a newline splits into two segments, so segments and parts can disagree. |
| `Confidence.Sum` | backend/main.py:124 | Python's `sum`: an empty list sums to 0 and a single value sums to itself. |
| `Confidence.SumFromFront` | backend/main.py:124 | Adding the values front to back gives the same total as `sum`'s left-to-right order. |
| `Confidence.SumBounds` | backend/main.py:124 | n values in [lo, hi] sum to between n·lo and n·hi. |
| `Confidence.MeanPercent` | backend/main.py:124 | An empty list gives 0, and no division happens. Otherwise the result times n equals 100 times the sum, which makes it the mean as a percentage. |
| `Confidence.MeanPercentBounds` | backend/main.py:124 | For a non-empty list of values in [lo, hi], the mean percentage lies in [100·lo, 100·hi]. |
| `Confidence.UnitConfidencesGivePercent` | backend/main.py:124 | Confidences in [0, 1] give an unrounded aggregate in [0, 100], and this includes the empty list. |
| `Confidence.RoundHalfEven` | backend/main.py:130 | The result is within 1/2 of the input, and strictly within 1/2 unless the input is an exact tie. A tie goes to the even integer, and an integer input is returned unchanged. |
| `Confidence.RoundHalfEvenMonotone` | backend/main.py:130 | Rounding to an integer preserves order. |
| `Confidence.Round2` | backend/main.py:130 | `round(x, 2)` is within 0.005 of x and is a whole number of hundredths. An exact half-hundredth goes to the even hundredth. |
| `Confidence.Round2Exact` | backend/main.py:130 | A value already on a whole hundredth is returned unchanged. |
| `Confidence.Round2Monotone` | backend/main.py:130 | Rounding to hundredths preserves order. |
| `Confidence.Round2KeepsPercentRange` | backend/main.py:130 | A percentage in [0, 100] stays in [0, 100] after rounding. |
| `Ocr.CollectDetections` | backend/main.py:114-121 | The two lists grow in step and end as long as the engine result. They hold each detection's text and confidence, in detection order. |
| `Ocr.OcrEndpoint` | backend/main.py:99-139 | A failed store gives `Failure` with its message, and the engine is not consulted. A failed recognition gives `Failure` with its message. Otherwise the response is `Aggregate` of the detections. |
| `Ocr.ToJson` | backend/main.py:126-139 | A success has exactly the keys `success`, `filename`, `text`, `confidence`, `line_count` and `lines`. A failure has exactly `success` and `error`. `success` says which. |
| `Ocr.Zip` | backend/main.py:132 | Python's `zip`: as many records as the shorter list, each pairing the text and confidence at the same index. When there are no more texts than confidences, the records' texts are exactly the texts. |
| `Ocr.Aggregate` | backend/main.py:114-133 | A recognized result always gives a success that keeps the upload's filename. Its `line_count`, the number of `lines` records and the number of detections are equal, so the zip drops nothing. The lemmas `AggregateLinesInOrder` through `AggregateHelloWorld` state its other properties. |
| `Ocr.AggregateLinesInOrder` | backend/main.py:117-132 | Record i pairs detection i's text with its raw, unscaled confidence. |
| `Ocr.AggregateLinesJoinToText` | backend/main.py:123-132 | Joining the texts of `lines` with newlines reproduces `text` exactly. |
| `Ocr.AggregateTextSegments` | backend/main.py:123-131 | With one or more newline-free texts, splitting `text` at newlines gives the detection texts, so the segment count equals `line_count`. |
| `Ocr.AggregateEmpty` | backend/main.py:123-133 | No detections still gives a success, with empty text, confidence 0, zero lines and no records. |
| `Ocr.AggregateTextEmptyIff` | backend/main.py:123 | `text` is empty if and only if there are no detections, or exactly one detection with empty text. |
| `Ocr.AggregateConfidenceIsRoundedMean` | backend/main.py:124-130 | The reported confidence is within 0.005 of the mean percentage of the detection confidences, and is a whole number of hundredths. |
| `Ocr.AggregateConfidenceScales` | backend/main.py:124-132 | With detection confidences in [0, 1], both the unrounded and the rounded aggregate lie in [0, 100]. Every line record's confidence stays in [0, 1]. |
| `Ocr.AggregateHelloWorld` | backend/main.py:117-133 | Detections ("Hello", 0.90) and ("World", 0.80) give text `"Hello\nWorld"`, confidence 85.0, two lines and two records. |
| `Ocr.FailureShape` | backend/main.py:135-139 | A failure serializes to exactly `{success: false, error: message}`, with no `text`, `confidence` or `lines`. |

## Left out

- FastAPI app creation, CORS middleware, the static mount and the `uvicorn` launch (backend/main.py:11-23, 141-143): these are framework wiring.
- The HTML and JavaScript page served by `GET /` (backend/main.py:28-97): this is user interface.
- Saving the upload (backend/main.py:103-108): `os.makedirs`, `open` and `shutil.copyfileobj` are file I/O. In `OcrEndpoint` the step is the input `stored`, which is either `Ok` or `Err` with the exception's message. The path `uploads/<filename>` and its lack of sanitizing are not modelled.
- The EasyOCR reader and `reader.readtext` (backend/main.py:26, 111): an opaque foreign library. Its outcome is the input `recognized`, either `Err` with a message or any sequence of detections.
- The bounding box of each detection, and the unused `cv2` and `numpy` imports (backend/main.py:8-9): the handler never reads them.
- Malformed engine output (a tuple too short, a non-string text or a non-numeric confidence): such output would raise inside the loop, the join or the sum and so give `Failure`. Detections are typed here, so aggregation cannot fail.
- `Round2`, `MeanPercent`: binary floating point is not modelled. Python's sum, division, multiplication and `round(x, 2)` each round to a double. The model uses exact reals, so the result can differ from the program's in the last bits, and on values like 2.675 that a double cannot hold exactly.
- `ToJson`: JSON numbers are reals, so the integer `0` that the source returns for an empty result reads the same as `0.0`.
- Concurrent requests sharing the one reader: concurrency is out of scope.
- Determinism on identical input: every step here is a function of its inputs, so this needs no separate lemma.
