/** The `car` validation schema of kings_server/db.py: a trafaret `Dict` with five required
    keys, three bounded strings, a bounded integer and a fixed-length string. */
module Schema {
  import opened Wrappers

  /** A field value as it reaches the validator or the store. `Other` is any value of a type
      the schema has no rule for (a float, a bool, None, a list). `Time` is a `datetime` as it
      is stored, a count of milliseconds, which is what `sort('timestamp')` compares. */
  datatype Value = Str(s: string) | Int(i: int) | Time(t: nat) | Other

  /** A validated car: the five declared fields with the values that passed. */
  datatype Car = Car(manufacturer: string, model: string, year: int, color: string, vin: string)

  /** The message trafaret attaches to one key. */
  datatype FieldError =
    | IsRequired        // "is required"
    | NotAllowedKey     // "<key> is not allowed key"
    | NotAString        // "value is not a string"
    | BlankValue        // "blank value is not allowed"
    | ShorterThan(minLength: nat)   // "String is shorter than <n> characters"
    | LongerThan(maxLength: nat)    // "String is longer than <n> characters"
    | NotAnInt          // "value is not int"
    | LessThan(gte: int)            // "value is less than <n>"
    | GreaterThan(lte: int)         // "value is greater than <n>"

  const MaxLength: nat := 50
  const VinLength: nat := 17
  const MinYear: int := 1900
  const MaxYear: int := 2100

  /** The keys of the schema; `t.Key` makes each one required. */
  const Declared: set<string> := {"manufacturer", "model", "year", "color", "vin"}

  /** `t.String(min_length, max_length)` with `allow_blank` left false; a `minLength` of 0
      stands for no lower bound. */
  function CheckString(v: Value, minLength: nat, maxLength: nat): (r: Result<string, FieldError>)
    ensures r.Success? <==> v.Str? && 0 < |v.s| && minLength <= |v.s| <= maxLength
    ensures r.Success? ==> r.value == v.s
    ensures !v.Str? ==> r == Failure(NotAString)
    ensures v.Str? && |v.s| == 0 ==> r == Failure(BlankValue)
    ensures v.Str? && 0 < |v.s| && |v.s| < minLength ==> r == Failure(ShorterThan(minLength))
    ensures v.Str? && minLength <= |v.s| && maxLength < |v.s| ==> r == Failure(LongerThan(maxLength))
  {
    if !v.Str? then Failure(NotAString)
    else if |v.s| == 0 then Failure(BlankValue)
    else if |v.s| < minLength then Failure(ShorterThan(minLength))
    else if |v.s| > maxLength then Failure(LongerThan(maxLength))
    else Success(v.s)
  }

  /** `t.Int(gte, lte)`: only an integer passes, and only within the bounds. */
  function CheckInt(v: Value, gte: int, lte: int): (r: Result<int, FieldError>)
    ensures r.Success? <==> v.Int? && gte <= v.i <= lte
    ensures r.Success? ==> r.value == v.i
    ensures !v.Int? ==> r == Failure(NotAnInt)
    ensures v.Int? && v.i < gte ==> r == Failure(LessThan(gte))
    ensures v.Int? && gte <= v.i && lte < v.i ==> r == Failure(GreaterThan(lte))
  {
    if !v.Int? then Failure(NotAnInt)
    else if v.i < gte then Failure(LessThan(gte))
    else if v.i > lte then Failure(GreaterThan(lte))
    else Success(v.i)
  }

  /** The rule of one declared key, as an optional error. */
  function FieldCheck(key: string, v: Value): Option<FieldError> {
    if key == "year" then
      (var r := CheckInt(v, MinYear, MaxYear); if r.Success? then None else Some(r.error))
    else
      var r := if key == "vin" then CheckString(v, VinLength, VinLength) else CheckString(v, 0, MaxLength);
      if r.Success? then None else Some(r.error)
  }

  /** The error of one key of the input or of the schema, if any. */
  function KeyCheck(m: map<string, Value>, key: string): Option<FieldError> {
    if key !in Declared then Some(NotAllowedKey)
    else if key !in m then Some(IsRequired)
    else FieldCheck(key, m[key])
  }

  /** Every error, keyed by field name (`DataError.as_dict()`). */
  function Errors(m: map<string, Value>): map<string, FieldError> {
    map key | key in Declared + m.Keys && KeyCheck(m, key).Some? :: KeyCheck(m, key).value
  }

  /** Each rule in its own words. */
  predicate IsName(v: Value) {
    v.Str? && 0 < |v.s| <= MaxLength
  }

  predicate IsYear(v: Value) {
    v.Int? && MinYear <= v.i <= MaxYear
  }

  predicate IsVin(v: Value) {
    v.Str? && |v.s| == VinLength
  }

  /** What every validated car satisfies. */
  predicate IsValidCar(c: Car) {
    && 0 < |c.manufacturer| <= MaxLength && 0 < |c.model| <= MaxLength && 0 < |c.color| <= MaxLength
    && MinYear <= c.year <= MaxYear
    && |c.vin| == VinLength
  }

  /** The dict `car.check` returns for a car. */
  function Fields(c: Car): map<string, Value> {
    map["manufacturer" := Str(c.manufacturer), "model" := Str(c.model), "year" := Int(c.year),
        "color" := Str(c.color), "vin" := Str(c.vin)]
  }

  /** `car.check(post)`. It succeeds exactly when the input has the five keys and no other and
      each value passes its rule; then the car holds exactly the input. Otherwise there is one
      error for each missing key, each key outside the schema and each value that fails, and
      for no other key. */
  function ValidateCar(m: map<string, Value>): (r: Result<Car, map<string, FieldError>>)
    ensures r.Success? <==>
      && m.Keys == Declared
      && IsName(m["manufacturer"]) && IsName(m["model"]) && IsYear(m["year"])
      && IsName(m["color"]) && IsVin(m["vin"])
    ensures r.Success? ==> Fields(r.value) == m && IsValidCar(r.value)
    ensures r.Failure? ==> forall key :: key in r.error <==>
      || (key in Declared && key !in m)
      || (key in m && key !in Declared)
      || (key in m && key in {"manufacturer", "model", "color"} && !IsName(m[key]))
      || (key in m && key == "year" && !IsYear(m[key]))
      || (key in m && key == "vin" && !IsVin(m[key]))
    ensures r.Failure? ==> forall key :: key in r.error && key !in m ==> r.error[key] == IsRequired
    ensures r.Failure? ==> forall key :: key in r.error && key !in Declared ==> r.error[key] == NotAllowedKey
  {
    var errors := Errors(m);
    if errors == map[] then
      NoErrors(m);
      Success(Car(m["manufacturer"].s, m["model"].s, m["year"].i, m["color"].s, m["vin"].s))
    else
      Failure(errors)
  }

  lemma NoErrors(m: map<string, Value>)
    requires Errors(m) == map[]
    ensures forall key | key in Declared + m.Keys :: KeyCheck(m, key).None?
  {
    forall key | key in Declared + m.Keys
      ensures KeyCheck(m, key).None?
    {
      assert key !in Errors(m);
    }
  }

  /** A year is accepted exactly within [1900, 2100]; outside it the error is on "year" and says
      which bound was crossed. */
  lemma YearRule(m: map<string, Value>, y: int)
    requires "year" in m && m["year"] == Int(y)
    ensures ValidateCar(m).Success? ==> MinYear <= y <= MaxYear
    ensures y < MinYear ==> ValidateCar(m).Failure? && ValidateCar(m).error["year"] == LessThan(MinYear)
    ensures y > MaxYear ==> ValidateCar(m).Failure? && ValidateCar(m).error["year"] == GreaterThan(MaxYear)
  {
    if y < MinYear || y > MaxYear {
      assert KeyCheck(m, "year").Some?;
    }
  }

  /** A bounded string longer than 50 is rejected with an error on that field naming the bound. */
  lemma LongNameRule(m: map<string, Value>, key: string)
    requires key in {"manufacturer", "model", "color"} && key in m
    requires m[key].Str? && |m[key].s| > MaxLength
    ensures ValidateCar(m).Failure? && ValidateCar(m).error[key] == LongerThan(MaxLength)
  {
    assert KeyCheck(m, key) == Some(LongerThan(MaxLength));
  }

  /** A VIN of any length other than 17 is rejected with an error on "vin". */
  lemma VinRule(m: map<string, Value>)
    requires "vin" in m && m["vin"].Str? && 0 < |m["vin"].s| != VinLength
    ensures ValidateCar(m).Failure?
    ensures ValidateCar(m).error["vin"] ==
      if |m["vin"].s| < VinLength then ShorterThan(VinLength) else LongerThan(VinLength)
  {
    assert KeyCheck(m, "vin").Some?;
  }
}
