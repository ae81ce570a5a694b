/** The Trip form model: the data annotations that decide ModelState.IsValid for a
    submitted trip, and the DateGreaterThan attribute on its end date. */
module TripModel {
  import opened Relational

  /** The categories the Category regular expression admits. */
  const CATEGORIES: set<string> := {"Family", "Honeymoon", "Adventure", "Cruise", "Luxury"}

  /** The properties of the Trip model that carry validation attributes. */
  datatype Field =
    | PackageName | Destination | Country | EndDate | Price | OldPrice
    | AvailableRooms | Category | MinAge | Description | CancellationDays

  /** The outcome of one validation attribute on a Trip: a failure names its property
      (the user-facing message text is not modelled). */
  datatype Check = Pass | Fail(field: Field)

  /** A ValidationResult of a stand-alone attribute: success, or an error message. */
  datatype ValidationResult = Success | Error(message: string)

  /** A submitted trip as the model binder fills it: strings may be null (None); the
      two dates are non-nullable DateTime values. */
  datatype TripForm = TripForm(
    packageName: Option<string>,
    destination: Option<string>,
    country: Option<string>,
    startDate: int,
    endDate: int,
    price: real,
    oldPrice: Option<real>,
    discountEndDate: Option<int>,
    availableRooms: int,
    category: Option<string>,
    minAge: Option<int>,
    description: Option<string>,
    cancellationDays: int)

  /** The date-valued properties of a form, looked up by name as reflection does. */
  function DateProperties(f: TripForm): map<string, Option<int>>
  {
    map["StartDate" := Some(f.startDate), "EndDate" := Some(f.endDate), "DiscountEndDate" := f.discountEndDate]
  }

  /** DateGreaterThan(comparisonProperty): the annotated value must lie strictly after
      the named property's value. An unknown property name always fails; a missing
      value on either side passes. */
  function DateGreaterThan(value: Option<int>, comparisonProperty: string,
                           properties: map<string, Option<int>>, errorMessage: string): (r: ValidationResult)
    ensures comparisonProperty !in properties ==> r == Error("Unknown property: " + comparisonProperty)
    ensures comparisonProperty in properties && (value.None? || properties[comparisonProperty].None?) ==>
      r == Success
    ensures comparisonProperty in properties && value.Some? && properties[comparisonProperty].Some? ==>
      (r == Success <==> value.value > properties[comparisonProperty].value) &&
      (r != Success ==> r == Error(errorMessage))
  {
    if comparisonProperty !in properties then
      Error("Unknown property: " + comparisonProperty)
    else
      var other := properties[comparisonProperty];
      if value.Some? && other.Some? && value.value <= other.value then Error(errorMessage) else Success
  }

  /** The characters String.IsNullOrWhiteSpace treats as blank, as far as this model
      distinguishes them. */
  predicate IsSpace(c: char)
  {
    c == ' ' || c == '\t' || c == '\n' || c == '\r' || c == '\U{B}' || c == '\U{C}'
  }

  predicate IsBlank(s: string)
  {
    forall i | 0 <= i < |s| :: IsSpace(s[i])
  }

  /** [Required]: null, empty and all-blank strings fail. */
  function Required(v: Option<string>, field: Field): Check
  {
    if v.None? || IsBlank(v.value) then Fail(field) else Pass
  }

  /** The UTF-16 code units of one character: a character outside the Basic Multilingual
      Plane is a surrogate pair. */
  function Utf16Units(c: char): nat
  {
    if c as int >= 0x1_0000 then 2 else 1
  }

  /** String.Length: the number of UTF-16 code units, not of characters. */
  function Utf16Length(s: string): (n: nat)
    ensures |s| <= n <= 2 * |s|
  {
    if s == [] then 0 else Utf16Units(s[0]) + Utf16Length(s[1..])
  }

  /** Substring(0, n) as far as whole characters go: the longest prefix of `s` that fits
      in `n` code units. */
  function Utf16Prefix(s: string, n: nat): (r: string)
    ensures r <= s && Utf16Length(r) <= n
    ensures |r| < |s| ==> Utf16Length(r) + Utf16Units(s[|r|]) > n
    ensures Utf16Length(s) <= n ==> r == s
  {
    if s == [] || Utf16Units(s[0]) > n then []
    else
      var rest := Utf16Prefix(s[1..], n - Utf16Units(s[0]));
      assert ([s[0]] + rest)[1..] == rest;
      [s[0]] + rest
  }

  /** [StringLength(max)]: null passes; the length is String.Length. */
  function StringLength(v: Option<string>, max: int, field: Field): Check
  {
    if v.Some? && Utf16Length(v.value) > max then Fail(field) else Pass
  }

  /** Convert.ToInt32 on a decimal: the nearest integer, a tie going to the even one. */
  function RoundHalfEven(x: real): (r: int)
    ensures x - 0.5 <= r as real <= x + 0.5
    ensures r as real == x - 0.5 || r as real == x + 0.5 ==> r % 2 == 0
  {
    var f := x.Floor;
    var frac := x - f as real;
    if frac < 0.5 then f
    else if frac > 0.5 then f + 1
    else if f % 2 == 0 then f else f + 1
  }

  /** [Range(lo, hi)] with integer bounds on a non-nullable integer. */
  function Range(v: int, lo: int, hi: int, field: Field): Check
  {
    if lo <= v <= hi then Pass else Fail(field)
  }

  /** [Range(lo, hi)] with integer bounds on a nullable integer: null passes. */
  function OptionalRange(v: Option<int>, lo: int, hi: int, field: Field): Check
  {
    if v.None? then Pass else Range(v.value, lo, hi, field)
  }

  /** [Range(lo, hi)] with integer bounds on a decimal: the attribute converts the value
      with Convert.ToInt32 before comparing. */
  function DecimalRange(v: real, lo: int, hi: int, field: Field): Check
  {
    Range(RoundHalfEven(v), lo, hi, field)
  }

  /** [RegularExpression("^(Family|Honeymoon|Adventure|Cruise|Luxury)$")]: null and the
      empty string pass, anything else must be one of the categories. */
  function CategoryPattern(v: Option<string>, field: Field): Check
  {
    if v.None? || v.value == "" || v.value in CATEGORIES then Pass else Fail(field)
  }

  /** The properties whose checks failed, in order: the ModelState errors. */
  function Failures(cs: seq<Check>): (r: seq<Field>)
    ensures r == [] <==> forall i | 0 <= i < |cs| :: cs[i] == Pass
    ensures |r| <= |cs|
  {
    if cs == [] then []
    else (if cs[0].Fail? then [cs[0].field] else []) + Failures(cs[1..])
  }

  /** Every attribute of the Trip model, in declaration order. Description is a
      non-nullable string in a project with nullable reference types, so MVC adds an
      implicit [Required] to it. */
  function TripChecks(f: TripForm): seq<Check>
  {
    [ Required(f.packageName, PackageName),
      StringLength(f.packageName, 200, PackageName),
      Required(f.destination, Destination),
      StringLength(f.destination, 150, Destination),
      Required(f.country, Country),
      StringLength(f.country, 100, Country),
      EndDateAttribute(f),
      DecimalRange(f.price, 0, 100000, Price),
      if f.oldPrice.None? then Pass else DecimalRange(f.oldPrice.value, 0, 100000, OldPrice),
      Range(f.availableRooms, 0, 500, AvailableRooms),
      Required(f.category, Category),
      CategoryPattern(f.category, Category),
      StringLength(f.category, 100, Category),
      OptionalRange(f.minAge, 0, 120, MinAge),
      Required(f.description, Description),
      StringLength(f.description, 2000, Description),
      Range(f.cancellationDays, 0, 365, CancellationDays) ]
  }

  /** [DateGreaterThan("StartDate")] on EndDate. */
  function EndDateAttribute(f: TripForm): Check
  {
    if DateGreaterThan(Some(f.endDate), "StartDate", DateProperties(f), "End date must be after start date") == Success
    then Pass else Fail(EndDate)
  }

  /** ModelState.IsValid for a bound Trip. */
  predicate ModelStateValid(f: TripForm)
  {
    Failures(TripChecks(f)) == []
  }

  /** The constraints of the Trip model, stated field by field. A decimal passes its
      [Range(0, 100000)] from -0.5 to 100000.5, both included, because the attribute
      rounds it half to even first. */
  predicate MeetsTripConstraints(f: TripForm)
  {
    && f.packageName.Some? && !IsBlank(f.packageName.value) && Utf16Length(f.packageName.value) <= 200
    && f.destination.Some? && !IsBlank(f.destination.value) && Utf16Length(f.destination.value) <= 150
    && f.country.Some? && !IsBlank(f.country.value) && Utf16Length(f.country.value) <= 100
    && f.endDate > f.startDate
    && -0.5 <= f.price <= 100000.5
    && (f.oldPrice.Some? ==> -0.5 <= f.oldPrice.value <= 100000.5)
    && 0 <= f.availableRooms <= 500
    && f.category.Some? && f.category.value in CATEGORIES
    && (f.minAge.Some? ==> 0 <= f.minAge.value <= 120)
    && f.description.Some? && !IsBlank(f.description.value) && Utf16Length(f.description.value) <= 2000
    && 0 <= f.cancellationDays <= 365
  }

  /** A decimal passes [Range(lo, hi)] with even bounds exactly when it lies within half
      a unit of the range: the rounding sends both ends' ties inside. */
  lemma DecimalRangeMeans(v: real, lo: int, hi: int)
    requires lo % 2 == 0 && hi % 2 == 0
    ensures DecimalRange(v, lo, hi, Price) == Pass <==> lo as real - 0.5 <= v <= hi as real + 0.5
  {
  }

  lemma CategoriesNotBlank(c: string)
    requires c in CATEGORIES
    ensures !IsBlank(c) && Utf16Length(c) <= 100
  {
    assert !IsSpace(c[0]);
  }

  /** The end-date attribute of a form passes exactly when the trip ends after it starts. */
  lemma EndDateCheck(f: TripForm)
    ensures EndDateAttribute(f) == Pass <==> f.endDate > f.startDate
  {
    assert "StartDate" != "EndDate" && "StartDate" != "DiscountEndDate";
  }

  lemma ValidFormNames(f: TripForm)
    requires ModelStateValid(f)
    ensures f.packageName.Some? && !IsBlank(f.packageName.value) && Utf16Length(f.packageName.value) <= 200
    ensures f.destination.Some? && !IsBlank(f.destination.value) && Utf16Length(f.destination.value) <= 150
    ensures f.country.Some? && !IsBlank(f.country.value) && Utf16Length(f.country.value) <= 100
  {
    var cs := TripChecks(f);
    assert cs[0] == Pass && cs[1] == Pass && cs[2] == Pass && cs[3] == Pass;
    assert cs[4] == Pass && cs[5] == Pass;
  }

  lemma ValidFormNumbers(f: TripForm)
    requires ModelStateValid(f)
    ensures f.endDate > f.startDate
    ensures -0.5 <= f.price <= 100000.5
    ensures f.oldPrice.Some? ==> -0.5 <= f.oldPrice.value <= 100000.5
    ensures 0 <= f.availableRooms <= 500
    ensures f.minAge.Some? ==> 0 <= f.minAge.value <= 120
    ensures 0 <= f.cancellationDays <= 365
  {
    var cs := TripChecks(f);
    EndDateCheck(f);
    assert cs[6] == Pass && cs[7] == Pass && cs[8] == Pass && cs[9] == Pass;
    assert cs[13] == Pass && cs[16] == Pass;
    DecimalRangeMeans(f.price, 0, 100000);
    if f.oldPrice.Some? {
      DecimalRangeMeans(f.oldPrice.value, 0, 100000);
    }
  }

  lemma ValidFormText(f: TripForm)
    requires ModelStateValid(f)
    ensures f.category.Some? && f.category.value in CATEGORIES
    ensures f.description.Some? && !IsBlank(f.description.value) && Utf16Length(f.description.value) <= 2000
  {
    var cs := TripChecks(f);
    assert cs[10] == Pass && cs[11] == Pass && cs[14] == Pass && cs[15] == Pass;
    assert IsBlank("");
  }

  lemma ValidFormMeetsConstraints(f: TripForm)
    requires ModelStateValid(f)
    ensures MeetsTripConstraints(f)
  {
    ValidFormNames(f);
    ValidFormNumbers(f);
    ValidFormText(f);
  }

  lemma NamesPass(f: TripForm)
    requires MeetsTripConstraints(f)
    ensures forall i | 0 <= i < 6 :: TripChecks(f)[i] == Pass
  {
  }

  lemma NumbersPass(f: TripForm)
    requires MeetsTripConstraints(f)
    ensures forall i | 6 <= i < 10 :: TripChecks(f)[i] == Pass
  {
    EndDateCheck(f);
    DecimalRangeMeans(f.price, 0, 100000);
    if f.oldPrice.Some? {
      DecimalRangeMeans(f.oldPrice.value, 0, 100000);
    }
  }

  lemma TextPass(f: TripForm)
    requires MeetsTripConstraints(f)
    ensures forall i | 10 <= i < 17 :: TripChecks(f)[i] == Pass
  {
    CategoriesNotBlank(f.category.value);
  }

  lemma ConstraintsMakeFormValid(f: TripForm)
    requires MeetsTripConstraints(f)
    ensures ModelStateValid(f)
  {
    NamesPass(f);
    NumbersPass(f);
    TextPass(f);
    assert |TripChecks(f)| == 17;
  }

  /** ModelState.IsValid holds exactly when the form meets every constraint. */
  lemma ModelStateValidMeans(f: TripForm)
    ensures ModelStateValid(f) <==> MeetsTripConstraints(f)
  {
    if ModelStateValid(f) {
      ValidFormMeetsConstraints(f);
    }
    if MeetsTripConstraints(f) {
      ConstraintsMakeFormValid(f);
    }
  }

  /** A valid form never carries a negative room count, an end before its start or an
      unknown category: the facts the stored trips rely on. */
  lemma ValidFormRanges(f: TripForm)
    requires ModelStateValid(f)
    ensures f.availableRooms >= 0 && f.endDate > f.startDate
    ensures f.category.Some? && f.category.value in CATEGORIES
  {
    ModelStateValidMeans(f);
  }
}
