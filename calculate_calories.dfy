/** The calorie-estimate endpoint (POST /api/calculate-calories): validate the
    request fields by truthiness, normalise the workout name, look up its MET
    coefficient, and estimate the calories burnt by a 70 kg person. */
module CalculateCalories {
  import opened JsSemantics

  /** MET coefficients by normalised workout name. The key "default" is part
      of the table itself. */
  const MetValues: map<string, real> := map[
    "running" := 9.8,
    "jogging" := 7.0,
    "walking" := 3.5,
    "swimming" := 8.0,
    "cycling" := 7.5,
    "weight training" := 3.5,
    "yoga" := 2.5,
    "dancing" := 4.8,
    "hiking" := 5.3,
    "jumping rope" := 12.3,
    "basketball" := 6.5,
    "soccer" := 7.0,
    "tennis" := 7.3,
    "default" := 5.0
  ]

  /** Assumed body mass in kilograms. */
  const DefaultWeight: real := 70.0

  /** What the endpoint answers. `Ok` is status 200 with
      `{ calories, details: { workout, duration, met } }`, where a non-finite
      number appears as `null`; `BadRequest` is status 400 with
      "Workout and duration are required"; `InternalError` is status 500 with
      "Failed to calculate calories". */
  datatype Response =
    | Ok(calories: Option<int>, workout: string, duration: Option<real>, met: real)
    | BadRequest
    | InternalError

  /** What `request.json()` makes of the body. Any JSON value other than `null`
      can be destructured; a primitive or an array has neither field, so it is
      `Fields(Undefined, Undefined)`. */
  datatype Body =
    | Unparseable
    | JsonNull
    | Fields(workout: JsonValue, duration: JsonValue)

  /** The workout name as it is looked up and reported: lower-cased, then
      trimmed. The result has no white space at either end and no upper-case
      letter. */
  function Normalize(workout: string): (name: string)
    ensures Tight(name)
    ensures forall i :: 0 <= i < |name| ==> !IsUpper(name[i])
  {
    LowerTrimCommute(workout);
    Trim(Lower(workout))
  }

  /** `MET_VALUES[name] || MET_VALUES.default`: the table entry for a known
      name, the default coefficient otherwise. Every coefficient the endpoint
      can use is a value of the table, between 2.5 and 12.3. */
  function MetFor(name: string): (met: real)
    ensures name in MetValues ==> met == MetValues[name]
    ensures name !in MetValues ==> met == 5.0
    ensures met in MetValues.Values
    ensures 2.5 <= met <= 12.3
  {
    if name in MetValues && MetValues[name] != 0.0 then MetValues[name] else MetValues["default"]
  }

  /** `Math.round(met * DEFAULT_WEIGHT * (minutes / 60))`: the integer nearest
      to the exact energy estimate, a half rounded up. */
  function Calories(met: real, minutes: real): (kcal: int)
    ensures kcal as real - 0.5 <= met * DefaultWeight * (minutes / 60.0) < kcal as real + 0.5
  {
    Round(met * DefaultWeight * (minutes / 60.0))
  }

  /** The body of the `try` block once the fields are read. Validation comes
      first, so a missing field wins over everything else. A truthy workout
      that is not a string has no `toLowerCase`, and a duration whose
      `Number(...)` throws fails the conversion; both are answered with the
      generic failure. */
  function Handle(workout: JsonValue, duration: JsonValue, parse: string -> JsNumber): (r: Response)
    ensures r.BadRequest? <==> !Truthy(workout) || !Truthy(duration)
    ensures r.InternalError? <==>
              Truthy(workout) && Truthy(duration) && (!workout.Text? || ToNumber(duration, parse).None?)
    ensures r.Ok? <==> workout.Text? && workout.s != "" && Truthy(duration) && ToNumber(duration, parse).Some?
    ensures r.Ok? ==> r.workout == Normalize(workout.s) && r.met == MetFor(r.workout)
    ensures r.Ok? ==>
              match ToNumber(duration, parse)
              case Some(Finite(d)) => r.duration == Some(d) && r.calories == Some(Calories(r.met, d))
              case Some(NonFinite) => r.duration == None && r.calories == None
              case None => false
  {
    if !Truthy(workout) || !Truthy(duration) then
      BadRequest
    else if !workout.Text? then
      InternalError
    else
      var name := Normalize(workout.s);
      var met := MetFor(name);
      match ToNumber(duration, parse)
      case None => InternalError
      case Some(Finite(d)) => Ok(Some(Calories(met, d)), name, Some(d), met)
      case Some(NonFinite) => Ok(None, name, None, met)
  }

  /** The whole handler: a body that does not parse, or that is `null` and so
      cannot be destructured, throws inside the `try` and is answered with
      the generic failure. */
  function Post(body: Body, parse: string -> JsNumber): (r: Response)
    ensures body.Unparseable? || body.JsonNull? ==> r == InternalError
    ensures body.Fields? ==> r == Handle(body.workout, body.duration, parse)
  {
    match body
    case Unparseable => InternalError
    case JsonNull => InternalError
    case Fields(workout, duration) => Handle(workout, duration, parse)
  }
}
