/** Review submission: the input sanitisers of the reviews controller and
    the guard that decides, before anything is written, whether a review
    is inserted. */
module Reviews {
  import opened Js
  import opened Text

  const Anonymous: string := "Anonymous"
  const MaxUserLength: nat := 60
  const MaxReviewLength: nat := 5000
  const MaxScore: int := 10

  function Min(a: nat, b: nat): nat
  {
    if a < b then a else b
  }

  /** `(input || '').trim()`: a falsy input reads as "", a string is
      trimmed, and any other truthy value has no `trim` method. */
  function TrimmedOrEmpty(input: JsValue): (r: Result<string>)
    ensures r.TypeError? <==> Truthy(input) && !input.Str?
    ensures r.Ok? && input.Str? ==> r.value == Trim(input.s)
    ensures r.Ok? && !input.Str? ==> r.value == ""
  {
    if !Truthy(input) then Ok("") else if input.Str? then Ok(Trim(input.s)) else TypeError
  }

  /** True when the input leaves nothing after trimming. */
  predicate Blank(input: JsValue)
  {
    !input.Str? || AllWhitespace(input.s)
  }

  /** `sanitizeUser`: the author's name, "Anonymous" when nothing is left
      after trimming, otherwise at most the first 60 characters of the
      trimmed name. */
  function SanitizeUser(input: JsValue): (r: Result<string>)
    ensures r.TypeError? <==> Truthy(input) && !input.Str?
    ensures r.Ok? && Blank(input) ==> r.value == Anonymous
    ensures r.Ok? && !Blank(input) ==>
      r.value <= Trim(input.s) && |r.value| == Min(MaxUserLength, |Trim(input.s)|)
    ensures r.Ok? ==> 1 <= |r.value| <= MaxUserLength
  {
    match TrimmedOrEmpty(input)
    case TypeError => TypeError
    case Ok(s) =>
      TrimEmptyIff(if input.Str? then input.s else "");
      if s == "" then Ok(Anonymous) else Ok(Take(s, MaxUserLength))
  }

  /** The three inputs `normalizeScore` turns into null before converting. */
  predicate NoScore(input: JsValue)
  {
    input == Undefined || input == Null || input == Str("")
  }

  /** `normalizeScore`: null for a missing or empty score and for anything
      that does not convert to a finite number, otherwise the rounded
      number clamped to 0..10. */
  function NormalizeScore(input: JsValue, parse: string -> Number): (r: Option<int>)
    ensures NoScore(input) ==> r == None
    ensures r == None <==> NoScore(input) || !ToNumber(input, parse).Finite?
    ensures r.Some? ==> 0 <= r.value <= MaxScore
    ensures r.Some? ==>
      var k := Round(ToNumber(input, parse).value);
      (0 <= k <= MaxScore ==> r.value == k)
      && (k < 0 ==> r.value == 0)
      && (k > MaxScore ==> r.value == MaxScore)
  {
    if NoScore(input) then None
    else
      var n := ToNumber(input, parse);
      if !n.Finite? then None
      else
        var k := Round(n.value);
        Some(if k > MaxScore then MaxScore else if k < 0 then 0 else k)
  }

  /** The value a stored score takes when it is read back: null, or the
      integer as a number. */
  function ScoreValue(score: Option<int>): JsValue
  {
    match score
    case None => Null
    case Some(k) => Num(Finite(k as real))
  }

  /** Normalising a normalised score changes nothing. */
  lemma NormalizeScoreIdempotent(input: JsValue, parse: string -> Number, parse': string -> Number)
    ensures NormalizeScore(ScoreValue(NormalizeScore(input, parse)), parse') == NormalizeScore(input, parse)
  {
    var r := NormalizeScore(input, parse);
    if r.Some? {
      assert Round(r.value as real) == r.value;
    }
  }

  /** `sanitizeReviewText`: "" when nothing is left after trimming,
      otherwise at most the first 5000 characters of the trimmed text. */
  function SanitizeReviewText(input: JsValue): (r: Result<string>)
    ensures r.TypeError? <==> Truthy(input) && !input.Str?
    ensures r.Ok? ==> (r.value == "" <==> Blank(input))
    ensures r.Ok? && !Blank(input) ==>
      r.value <= Trim(input.s) && |r.value| == Min(MaxReviewLength, |Trim(input.s)|)
  {
    match TrimmedOrEmpty(input)
    case TypeError => TypeError
    case Ok(s) =>
      TrimEmptyIff(if input.Str? then input.s else "");
      if s == "" then Ok("") else Ok(Take(s, MaxReviewLength))
  }

  /** The fields `createReview` reads from the JSON body; a missing field
      (or a missing body) is `undefined`. */
  datatype ReviewBody = ReviewBody(user: JsValue, score: JsValue, review: JsValue)

  /** The row handed to the INSERT; the date and time columns are filled in
      by the database. */
  datatype NewReview = NewReview(animeId: string, username: string, score: Option<int>, text: string)

  /** What `createReview` does with a request: answer 400, answer 500 (an
      exception caught by its handler) or insert a row and answer 201. */
  datatype CreateOutcome =
    | BadRequest(message: string)
    | ServerError(message: string)
    | Insert(row: NewReview)
  {
    function Status(): int
    {
      match this
      case BadRequest(_) => 400
      case ServerError(_) => 500
      case Insert(_) => 201
    }
  }

  /** `createReview` up to the INSERT: sanitise the three fields in order and
      refuse an empty review text. */
  function CreateReview(animeId: string, body: ReviewBody, parse: string -> Number): (r: CreateOutcome)
    ensures r.ServerError? <==>
      (Truthy(body.user) && !body.user.Str?) || (Truthy(body.review) && !body.review.Str?)
    ensures r.BadRequest? <==> !r.ServerError? && Blank(body.review)
    ensures r.BadRequest? ==> r == BadRequest("Review text is required")
    ensures r.Insert? ==>
      && r.row.animeId == animeId
      && 1 <= |r.row.username| <= MaxUserLength
      && (r.row.score.Some? ==> 0 <= r.row.score.value <= MaxScore)
      && r.row.text != "" && |r.row.text| <= MaxReviewLength
      && r.row.text <= Trim(body.review.s)
    ensures r.Insert? ==>
      && SanitizeUser(body.user).Ok? && SanitizeReviewText(body.review).Ok?
      && r.row == NewReview(animeId, SanitizeUser(body.user).value, NormalizeScore(body.score, parse),
                            SanitizeReviewText(body.review).value)
  {
    match SanitizeUser(body.user)
    case TypeError => ServerError("Failed to create review")
    case Ok(username) =>
      var score := NormalizeScore(body.score, parse);
      match SanitizeReviewText(body.review)
      case TypeError => ServerError("Failed to create review")
      case Ok(text) =>
        if text == "" then BadRequest("Review text is required")
        else Insert(NewReview(animeId, username, score, text))
  }
}
