/** What the calorie endpoint promises its callers, stated over the model in
    CalculateCalories: insensitivity to letter case and surrounding white
    space, the MET lookup, the shape of the calorie estimate, and worked
    examples of the formula MET × weight × hours. */
module CalorieProperties {
  import opened JsSemantics
  import opened CalculateCalories

  /** Two strings that lower-case to the same string. */
  predicate SameUpToCase(a: string, b: string) {
    |a| == |b| && forall i :: 0 <= i < |a| ==> LowerChar(a[i]) == LowerChar(b[i])
  }

  predicate NoUpper(s: string) {
    forall i :: 0 <= i < |s| ==> !IsUpper(s[i])
  }

  lemma LowerOfNoUpper(s: string)
    requires NoUpper(s)
    ensures Lower(s) == s
  {
  }

  // ---------------------------------------------------------------------------
  // Normalisation

  /** Trimming first and lower-casing second gives the same name. */
  lemma NormalizeTrimFirst(s: string)
    ensures Normalize(s) == Lower(Trim(s))
  {
    LowerTrimCommute(s);
  }

  /** The names normalisation leaves alone are exactly the tight names
      without upper-case letters. */
  lemma NormalFormFixed(s: string)
    ensures Normalize(s) == s <==> NoUpper(s) && Tight(s)
  {
    if NoUpper(s) && Tight(s) {
      assert [] + s + [] == s;
      TrimUnique([], s, []);
      LowerOfNoUpper(s);
      NormalizeTrimFirst(s);
    }
  }

  /** Normalising a normalised name changes nothing. */
  lemma NormalizeIdempotent(s: string)
    ensures Normalize(Normalize(s)) == Normalize(s)
  {
    var t := Trim(Lower(s));
    LowerIdempotent(s);
    assert Lower(t) == t by {
      LowerTrimCommute(Lower(s));
    }
    TrimIdempotent(Lower(s));
  }

  /** Names that differ only in letter case and in the white space around
      them normalise to the same name. */
  lemma NormalizeIgnoresCaseAndPadding(p: string, a: string, b: string, q: string)
    requires AllWhitespace(p) && AllWhitespace(q) && SameUpToCase(a, b)
    ensures Normalize(p + a + q) == Normalize(b)
  {
    assert Lower(a) == Lower(b);
    TrimIgnoresPadding(Lower(p), Lower(a), Lower(q));
    LowerAppend(p + a, q);
    LowerAppend(p, a);
  }

  /** ... and so the endpoint answers them identically, whatever the
      duration: same reported name, same MET, same calories. */
  lemma HandleIgnoresCaseAndPadding(p: string, a: string, b: string, q: string,
                                    duration: JsonValue, parse: string -> JsNumber)
    requires AllWhitespace(p) && AllWhitespace(q) && SameUpToCase(a, b) && b != ""
    ensures Handle(Text(p + a + q), duration, parse) == Handle(Text(b), duration, parse)
  {
    NormalizeIgnoresCaseAndPadding(p, a, b, q);
  }

  /** A name made only of white space passes validation, normalises to the
      empty string and gets the default coefficient; the request succeeds
      whenever the duration converts to a number. */
  lemma WhitespaceOnlyWorkout(s: string, duration: JsonValue, parse: string -> JsNumber)
    requires s != "" && AllWhitespace(s) && Truthy(duration)
    ensures Handle(Text(s), duration, parse).Ok? <==> ToNumber(duration, parse).Some?
    ensures Handle(Text(s), duration, parse).Ok? ==> Handle(Text(s), duration, parse).workout == ""
    ensures Handle(Text(s), duration, parse).Ok? ==> Handle(Text(s), duration, parse).met == 5.0
  {
    assert s + [] + [] == s;
    TrimUnique(s, [], []);
  }

  // ---------------------------------------------------------------------------
  // MET lookup

  lemma KeysAreTight(k: string)
    requires k in MetValues
    ensures Tight(k)
  {
  }

  lemma KeysHaveNoUpper(k: string)
    requires k in MetValues
    ensures NoUpper(k)
  {
  }

  /** Every key of the table is already in normal form, so it can be reached. */
  lemma KeysAreNormal(k: string)
    requires k in MetValues
    ensures Normalize(k) == k
  {
    KeysAreTight(k);
    KeysHaveNoUpper(k);
    NormalFormFixed(k);
  }

  /** A request with a non-empty workout string and a non-zero numeric
      duration succeeds, and its answer echoes the normalised name, the
      duration and the coefficient used, beside the estimate. */
  lemma HandleNumericDuration(workout: string, minutes: real, parse: string -> JsNumber)
    requires workout != "" && minutes != 0.0
    ensures var name := Normalize(workout);
            Handle(Text(workout), Number(minutes), parse)
            == Ok(Some(Calories(MetFor(name), minutes)), name, Some(minutes), MetFor(name))
  {
  }

  /** A request whose workout is already a normalised name is answered with
      that name, its coefficient and the estimate for the duration. */
  lemma HandleNormalName(name: string, minutes: real, parse: string -> JsNumber)
    requires name != "" && NoUpper(name) && Tight(name) && minutes != 0.0
    ensures Handle(Text(name), Number(minutes), parse)
            == Ok(Some(Calories(MetFor(name), minutes)), name, Some(minutes), MetFor(name))
  {
    NormalFormFixed(name);
  }

  /** A known workout, written in any letter case and with any white space
      around it, is answered with exactly its table coefficient whenever the
      duration converts to a number. */
  lemma KnownWorkoutGetsTableMet(k: string, p: string, a: string, q: string,
                                 duration: JsonValue, parse: string -> JsNumber)
    requires k in MetValues && SameUpToCase(a, k)
    requires AllWhitespace(p) && AllWhitespace(q) && Truthy(duration)
    ensures Handle(Text(p + a + q), duration, parse).Ok? <==> ToNumber(duration, parse).Some?
    ensures Handle(Text(p + a + q), duration, parse).Ok? ==> Handle(Text(p + a + q), duration, parse).met == MetValues[k]
  {
    assert k != "";
    assert p + a + q != "" by {
      assert |p + a + q| >= |a| == |k|;
    }
    NormalizeIgnoresCaseAndPadding(p, a, k, q);
    KeysAreNormal(k);
  }

  // ---------------------------------------------------------------------------
  // The calorie estimate

  /** No negative estimate for a non-negative duration. */
  lemma CaloriesNonNegative(met: real, minutes: real)
    requires met >= 0.0 && minutes >= 0.0
    ensures Calories(met, minutes) >= 0
  {
    assert met * DefaultWeight * (minutes / 60.0) >= 0.0;
  }

  /** A longer workout never gives a smaller estimate. */
  lemma CaloriesMonotone(met: real, d1: real, d2: real)
    requires met >= 0.0 && d1 <= d2
    ensures Calories(met, d1) <= Calories(met, d2)
  {
    var k := met * DefaultWeight / 60.0;
    assert k >= 0.0;
    assert met * DefaultWeight * (d1 / 60.0) == k * d1;
    assert met * DefaultWeight * (d2 / 60.0) == k * d2;
    assert k * d1 <= k * d2 by {
      assert k * (d2 - d1) >= 0.0;
    }
    RoundMonotone(k * d1, k * d2);
  }

  /** For a fixed workout the endpoint's estimate grows with the duration and
      is never negative for a duration of zero or more. */
  lemma HandleMonotoneInDuration(workout: string, d1: real, d2: real, parse: string -> JsNumber)
    requires workout != "" && 0.0 < d1 <= d2
    ensures Handle(Text(workout), Number(d1), parse).calories.value >= 0
    ensures Handle(Text(workout), Number(d1), parse).calories.value
            <= Handle(Text(workout), Number(d2), parse).calories.value
  {
    var met := MetFor(Normalize(workout));
    var r1 := Handle(Text(workout), Number(d1), parse);
    var r2 := Handle(Text(workout), Number(d2), parse);
    assert r1.calories == Some(Calories(met, d1));
    assert r2.calories == Some(Calories(met, d2));
    CaloriesNonNegative(met, d1);
    CaloriesMonotone(met, d1, d2);
  }

  // ---------------------------------------------------------------------------
  // Worked examples

  /** "Running" (or the name in any other letter case) for 30 minutes:
      9.8 × 70 × 0.5 = 343 calories. */
  lemma RunningHalfHour(workout: string, parse: string -> JsNumber)
    requires SameUpToCase(workout, "running")
    ensures Handle(Text(workout), Number(30.0), parse)
            == Ok(Some(343), "running", Some(30.0), 9.8)
  {
    assert "" + workout + "" == workout;
    NormalizeIgnoresCaseAndPadding("", workout, "running", "");
    KeysAreNormal("running");
    HandleNumericDuration(workout, 30.0, parse);
    assert MetFor("running") == 9.8;
    RoundUnique(9.8 * DefaultWeight * (30.0 / 60.0), 343);
  }

  /** An activity outside the table (such as "unknown activity") for an hour:
      the default 5.0 × 70 × 1 = 350 calories. */
  lemma UnknownActivityHour(workout: string, parse: string -> JsNumber)
    requires workout != "" && NoUpper(workout) && Tight(workout) && workout !in MetValues
    ensures Handle(Text(workout), Number(60.0), parse)
            == Ok(Some(350), workout, Some(60.0), 5.0)
  {
    HandleNormalName(workout, 60.0, parse);
    RoundUnique(5.0 * DefaultWeight * (60.0 / 60.0), 350);
  }

  lemma EmptyWorkoutRejected(parse: string -> JsNumber)
    ensures Handle(Text(""), Number(30.0), parse) == BadRequest
  {
  }

  lemma NumericWorkoutFails(parse: string -> JsNumber)
    ensures Handle(Number(5.0), Number(30.0), parse) == InternalError
  {
  }

  /** A negative duration is truthy and is not rejected: the estimate is
      negative. */
  lemma NegativeDurationAccepted(parse: string -> JsNumber)
    ensures Handle(Text("running"), Number(-30.0), parse).calories == Some(-343)
  {
    HandleNormalName("running", -30.0, parse);
    assert MetFor("running") == 9.8;
    RoundUnique(9.8 * DefaultWeight * (-30.0 / 60.0), -343);
  }

  /** An object or array duration whose conversion to a number throws (such as
      `{"toString": 1}`) passes validation, as every object is truthy, and is
      answered with the generic failure. */
  lemma UnconvertibleDurationFails(workout: string, parse: string -> JsNumber)
    requires workout != ""
    ensures Handle(Text(workout), Composite(None), parse) == InternalError
  {
  }

  /** Any other object or array duration is answered as the string it
      converts to would be, unless that string is empty: `[]` is truthy and
      reads as 0, while "" is rejected. */
  lemma CompositeDurationReadAsString(workout: string, t: string, parse: string -> JsNumber)
    ensures t != "" ==> Handle(Text(workout), Composite(Some(t)), parse) == Handle(Text(workout), Text(t), parse)
    ensures workout != "" ==> Handle(Text(workout), Composite(Some(t)), parse).Ok?
  {
  }

  /** A duration string that does not read as a number passes validation and
      is answered with a null estimate and a null duration. */
  lemma UnreadableDurationAnsweredWithNull(workout: string, text: string, parse: string -> JsNumber)
    requires workout != "" && text != "" && parse(text) == NonFinite
    ensures Handle(Text(workout), Text(text), parse)
            == Ok(None, Normalize(workout), None, MetFor(Normalize(workout)))
  {
  }
}
