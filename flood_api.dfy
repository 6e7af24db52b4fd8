/**
 * The `/predict` handler: validate the request, look the district up in the
 * reference frame, put the historical normals and the current rainfall side by
 * side, and return the decoded prediction of the classifier.
 *
 * The classifier's `predict` and the label encoder's inverse transform are
 * parameters: whatever they compute, the handler only passes values through.
 */
module FloodApi {
  import opened Text
  import opened Dataset

  const BadRequest := 400
  const NotFound := 404
  /** The status the web framework answers with when the handler raises an unexpected exception. */
  const InternalError := 500

  datatype FloodRequest = FloodRequest(district: string, currentRainfall: seq<real>)

  datatype Response =
    | Prediction(district: string, floodRisk: string)
    | Failure(status: int)

  /** `np.concatenate([past_rainfall, current_rainfall])`. */
  function Assemble(columns: seq<string>, matched: seq<Row>, current: seq<real>): (v: seq<real>)
    requires HasColumns(columns, NormalColumns)
    requires forall row <- matched :: |row.cells| == |columns|
    ensures |v| == Months * |matched| + |current|
    ensures forall k :: 0 <= k < |matched| ==> v[Months * k..Months * k + Months] == Project(columns, matched[k], NormalColumns)
    ensures v[Months * |matched|..] == current
  {
    var past := PastRainfall(columns, matched);
    assert forall k :: 0 <= k < |matched| ==> (past + current)[Months * k..Months * k + Months] == past[Months * k..Months * k + Months];
    past + current
  }

  /**
   * `predict_flood`: a wrong number of monthly values is refused first, then an
   * unknown district; a frame without the twelve normal columns makes the
   * column selection raise, which the framework reports as an internal error.
   */
  function PredictFlood<L>(frame: Frame, predict: seq<real> -> L, decode: L -> string, request: FloodRequest): (r: Response)
    requires WellFormed(frame)
    ensures |request.currentRainfall| != Months ==> r == Failure(BadRequest)
    ensures r == Failure(NotFound) <==>
      |request.currentRainfall| == Months && forall row <- frame.rows :: !Matches(row, request.district)
    ensures r == Failure(InternalError) <==>
      && |request.currentRainfall| == Months
      && (exists row <- frame.rows :: Matches(row, request.district))
      && !HasColumns(frame.columns, NormalColumns)
    ensures r.Prediction? <==>
      && |request.currentRainfall| == Months
      && (exists row <- frame.rows :: Matches(row, request.district))
      && HasColumns(frame.columns, NormalColumns)
    ensures r.Prediction? ==> r.district == TitleCase(request.district)
  {
    if |request.currentRainfall| != Months then Failure(BadRequest)
    else
      var matched := Lookup(frame.rows, request.district);
      if matched == [] then Failure(NotFound)
      else
        assert matched[0] in frame.rows && Matches(matched[0], request.district);
        if !HasColumns(frame.columns, NormalColumns) then Failure(InternalError)
        else
          var features := Assemble(frame.columns, matched, request.currentRainfall);
          Prediction(TitleCase(request.district), decode(predict(features)))
  }

  /**
   * On success the label is the decoder's output for the classifier's output
   * on the assembled vector, untouched; the vector holds twelve normals per
   * matching row followed by the request's twelve values.
   */
  lemma PredictionIsDecodedLabel<L>(frame: Frame, predict: seq<real> -> L, decode: L -> string, request: FloodRequest)
    requires WellFormed(frame)
    requires PredictFlood(frame, predict, decode, request).Prediction?
    ensures HasColumns(frame.columns, NormalColumns)
    ensures var matched := Lookup(frame.rows, request.district);
      var v := Assemble(frame.columns, matched, request.currentRainfall);
      && |matched| >= 1
      && |v| == Months * |matched| + Months
      && v[Months * |matched|..] == request.currentRainfall
      && PredictFlood(frame, predict, decode, request).floodRisk == decode(predict(v))
  {}

  /**
   * The returned name is the request's own spelling, title-cased: it is
   * already in title case and still names the rows that were matched.
   */
  lemma ReturnedDistrictIsTitledRequest<L>(frame: Frame, predict: seq<real> -> L, decode: L -> string, request: FloodRequest)
    requires WellFormed(frame)
    requires PredictFlood(frame, predict, decode, request).Prediction?
    ensures var name := PredictFlood(frame, predict, decode, request).district;
      && TitleCase(name) == name
      && Lower(name) == Lower(request.district)
      && Lookup(frame.rows, name) == Lookup(frame.rows, request.district)
  {
    var name := TitleCase(request.district);
    TitleCaseIdempotent(request.district);
    LowerOfTitleCase(request.district);
    RecasedIffSameLower(name, request.district);
    LookupRecased(frame.rows, name, request.district);
  }

  /** The answer does not depend on how the request spells the district's case. */
  lemma PredictFloodCaseInsensitive<L>(frame: Frame, predict: seq<real> -> L, decode: L -> string,
                                       d1: string, d2: string, current: seq<real>)
    requires WellFormed(frame)
    requires Recased(d1, d2)
    ensures PredictFlood(frame, predict, decode, FloodRequest(d1, current))
         == PredictFlood(frame, predict, decode, FloodRequest(d2, current))
  {
    LookupRecased(frame.rows, d1, d2);
    RecasedIffSameLower(d1, d2);
    TitleCaseRecased(d1, d2);
  }

  /**
   * With unique lower-cased district names, a request for a present district
   * feeds the classifier exactly 24 values: the row's normals January to
   * December, then the request's values in their order.
   */
  lemma SingleMatchFeatures<L>(frame: Frame, predict: seq<real> -> L, decode: L -> string,
                               request: FloodRequest, i: nat)
    requires WellFormed(frame) && UniqueDistricts(frame.rows)
    requires HasColumns(frame.columns, NormalColumns)
    requires i < |frame.rows| && Matches(frame.rows[i], request.district)
    requires |request.currentRainfall| == Months
    ensures var v := Project(frame.columns, frame.rows[i], NormalColumns) + request.currentRainfall;
      && |v| == 2 * Months
      && (forall m :: 0 <= m < Months ==> v[m] == Cell(frame.columns, frame.rows[i], NormalColumns[m]))
      && v[Months..] == request.currentRainfall
      && PredictFlood(frame, predict, decode, request)
         == Prediction(TitleCase(request.district), decode(predict(v)))
  {
    var row := frame.rows[i];
    LookupUnique(frame.rows, i, request.district);
    var v := Assemble(frame.columns, [row], request.currentRainfall);
    assert v[0..Months] == Project(frame.columns, row, NormalColumns);
    assert v == v[0..Months] + v[Months..];
  }
}
