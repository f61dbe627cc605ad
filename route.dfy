/**
 * The `POST` handler of app/api/generate-schedule/route.ts: the checks on the
 * request body, the configuration check, and the ordered classification of
 * whatever the schedule generation throws into a status and a message.
 * The generation itself (the model call, extraction and validation) is a
 * function parameter, and the API key is the value of the environment variable.
 */
module GenerateScheduleRoute {
  import opened Wrappers
  import opened Js
  import opened JsonValue
  import opened ScheduleTypes
  import ScheduleValidator

  /** A thrown value: an `Error` (maybe a `SyntaxError`) with its message, or anything else. */
  datatype Thrown = ErrorObject(message: string, isSyntaxError: bool) | NonError

  /** What the handler answers: the parsed schedule, or an `{ error }` object. */
  datatype Body = ScheduleBody(schedule: ScheduleResponse) | ErrorBody(error: string)

  datatype Response = Response(status: int, body: Body)

  const InvalidInputMessage: string := "Invalid input: userInput is required and must be a string"
  const TooShortMessage: string := "Input must be at least 20 characters long"
  const TooLongMessage: string := "Input must be at most 2000 characters long"
  const ConfigurationMessage: string := "Server configuration error: Claude API key is not configured"
  const ParseFailureMessage: string := "Failed to parse schedule response. Please try rephrasing your input."
  const ValidationPrefix: string := "Schedule validation error: "
  const UnavailableMessage: string := "Service temporarily unavailable. Please try again in a moment."
  const GenerationFailureMessage: string := "Failed to generate schedule. Please check your input and try again."
  const UnexpectedMessage: string := "An unexpected error occurred. Please try again."

  /** The bounds on the trimmed input, in UTF-16 code units. */
  const MinInputLength: nat := 20
  const MaxInputLength: nat := 2000

  /** The TypeError that destructuring a `null` body throws (V8's wording). */
  const NullBodyError: Thrown := ErrorObject("Cannot destructure property 'userInput' of 'body' as it is null.", false)

  /** The six classes of thrown errors, in the order the handler tests them. */
  datatype ErrorClass = MissingKey | ParseFailure | Validation | RateLimited | ApiFailure | Unexpected

  predicate NamesKey(m: string) { Includes(m, "ANTHROPIC_API_KEY") }
  predicate NamesParse(m: string) { Includes(m, "parse JSON") }
  predicate NamesValidation(m: string) { Includes(m, "Invalid") || Includes(m, "Activity") }
  predicate NamesRateLimit(m: string) { Includes(m, "rate limit") || Includes(m, "429") }
  predicate NamesApi(m: string) { Includes(m, "API") || Includes(m, "Claude") }

  /** The first class whose test the thrown value passes; non-errors are unexpected. */
  function Classify(t: Thrown): (c: ErrorClass)
    ensures t.NonError? ==> c == Unexpected
    ensures c == MissingKey <==> t.ErrorObject? && NamesKey(t.message)
    ensures c == ParseFailure <==>
              t.ErrorObject? && !NamesKey(t.message) && (NamesParse(t.message) || t.isSyntaxError)
    ensures c == Validation <==>
              t.ErrorObject? && !NamesKey(t.message) && !NamesParse(t.message) && !t.isSyntaxError
              && NamesValidation(t.message)
    ensures c == RateLimited <==>
              t.ErrorObject? && !NamesKey(t.message) && !NamesParse(t.message) && !t.isSyntaxError
              && !NamesValidation(t.message) && NamesRateLimit(t.message)
    ensures c == ApiFailure <==>
              t.ErrorObject? && !NamesKey(t.message) && !NamesParse(t.message) && !t.isSyntaxError
              && !NamesValidation(t.message) && !NamesRateLimit(t.message) && NamesApi(t.message)
  {
    if t.NonError? then Unexpected
    else
      var m := t.message;
      if NamesKey(m) then MissingKey
      else if NamesParse(m) || t.isSyntaxError then ParseFailure
      else if NamesValidation(m) then Validation
      else if NamesRateLimit(m) then RateLimited
      else if NamesApi(m) then ApiFailure
      else Unexpected
  }

  /**
   * The response to a thrown value: 503 for a rate limit, 500 for every other
   * class, with the class's fixed message, except that a validation error
   * reports its own message after "Schedule validation error: ".
   */
  function ErrorResponse(t: Thrown): (r: Response)
    ensures r.status == 503 <==> Classify(t) == RateLimited
    ensures r.status != 503 ==> r.status == 500
    ensures r.body.ErrorBody?
    ensures Classify(t) == Validation ==>
              StartsWith(r.body.error, ValidationPrefix) && r.body.error[|ValidationPrefix|..] == t.message
  {
    match Classify(t)
    case MissingKey => Response(500, ErrorBody(ConfigurationMessage))
    case ParseFailure => Response(500, ErrorBody(ParseFailureMessage))
    case Validation => Response(500, ErrorBody(ValidationPrefix + t.message))
    case RateLimited => Response(503, ErrorBody(UnavailableMessage))
    case ApiFailure => Response(500, ErrorBody(GenerationFailureMessage))
    case Unexpected => Response(500, ErrorBody(UnexpectedMessage))
  }

  /** `body.userInput` when it is a non-empty string; a non-object body has no such property. */
  function UserInput(body: Json): (r: Option<string>)
    ensures r.Some? <==> Get(body, "userInput").Some? && Get(body, "userInput").value.JString?
                         && Get(body, "userInput").value.s != []
    ensures r.Some? ==> Get(body, "userInput") == Some(JString(r.value))
  {
    var v := Get(body, "userInput");
    if !Truthy(v) || !v.value.JString? then None else Some(v.value.s)
  }

  /** The length checks on the trimmed input: the trimmed text, or the 400 response. */
  function CheckLength(input: string): (r: Result<string, Response>)
    ensures r.Success? <==> MinInputLength <= Length(Trim(input)) <= MaxInputLength
    ensures r.Success? ==> r.value == Trim(input)
    ensures Length(Trim(input)) < MinInputLength ==> r == Failure(Response(400, ErrorBody(TooShortMessage)))
    ensures Length(Trim(input)) > MaxInputLength ==> r == Failure(Response(400, ErrorBody(TooLongMessage)))
  {
    var trimmed := Trim(input);
    if Length(trimmed) < MinInputLength then Failure(Response(400, ErrorBody(TooShortMessage)))
    else if Length(trimmed) > MaxInputLength then Failure(Response(400, ErrorBody(TooLongMessage)))
    else Success(trimmed)
  }

  /** `!process.env.ANTHROPIC_API_KEY` is false: the variable is set and not empty. */
  predicate HasApiKey(apiKey: Option<string>) {
    apiKey.Some? && apiKey.value != []
  }

  /** The response to the outcome of the generation. */
  function Outcome(generated: Result<ScheduleResponse, Thrown>): (r: Response)
    ensures r.status == 200 <==> generated.Success?
    ensures generated.Success? ==> r.body == ScheduleBody(generated.value)
  {
    if generated.Success? then Response(200, ScheduleBody(generated.value)) else ErrorResponse(generated.error)
  }

  /**
   * `POST`: the body (or what reading it threw), the environment's API key and
   * the generation. Bad input gets 400, a missing key 500, both before the
   * generation runs, which receives the trimmed input.
   */
  function Post(body: Result<Json, Thrown>, apiKey: Option<string>, generate: string -> Result<ScheduleResponse, Thrown>)
    : (r: Response)
    ensures body.Failure? ==> r == ErrorResponse(body.error)
    ensures body.Success? && body.value.JNull? ==> r == ErrorResponse(NullBodyError)
    ensures body.Success? && !body.value.JNull? && UserInput(body.value).None? ==>
              r == Response(400, ErrorBody(InvalidInputMessage))
    ensures body.Success? && !body.value.JNull? && UserInput(body.value).Some? ==>
              var input := UserInput(body.value).value;
              (CheckLength(input).Failure? ==> r == CheckLength(input).error)
              && (CheckLength(input).Success? && !HasApiKey(apiKey) ==>
                    r == Response(500, ErrorBody(ConfigurationMessage)))
              && (CheckLength(input).Success? && HasApiKey(apiKey) ==> r == Outcome(generate(Trim(input))))
  {
    if body.Failure? then ErrorResponse(body.error)
    else if body.value.JNull? then ErrorResponse(NullBodyError)
    else match UserInput(body.value)
      case None => Response(400, ErrorBody(InvalidInputMessage))
      case Some(input) =>
        match CheckLength(input)
        case Failure(rejected) => rejected
        case Success(trimmed) =>
          if !HasApiKey(apiKey) then Response(500, ErrorBody(ConfigurationMessage))
          else Outcome(generate(trimmed))
  }

  /** Statuses the handler can answer with. */
  lemma PostStatuses(body: Result<Json, Thrown>, apiKey: Option<string>, generate: string -> Result<ScheduleResponse, Thrown>)
    ensures Post(body, apiKey, generate).status in {200, 400, 500, 503}
  {
  }

  /** Without an API key the generation is never consulted. */
  lemma NoKeyNoGeneration(body: Result<Json, Thrown>, apiKey: Option<string>,
                          g1: string -> Result<ScheduleResponse, Thrown>, g2: string -> Result<ScheduleResponse, Thrown>)
    requires !HasApiKey(apiKey)
    ensures Post(body, apiKey, g1) == Post(body, apiKey, g2)
    ensures Post(body, apiKey, g1).status != 200
  {
  }

  /** A 400 answer comes from the input checks alone, so it never depends on the generation. */
  lemma RejectionPrecedesGeneration(body: Result<Json, Thrown>, apiKey: Option<string>,
                                    g1: string -> Result<ScheduleResponse, Thrown>,
                                    g2: string -> Result<ScheduleResponse, Thrown>)
    requires Post(body, apiKey, g1).status == 400
    ensures Post(body, apiKey, g1) == Post(body, apiKey, g2)
  {
  }

  /** The generation sees exactly the trimmed input: inputs that trim alike get the same answer. */
  lemma TrimmedInputIsPassed(body1: Json, body2: Json, apiKey: Option<string>,
                             generate: string -> Result<ScheduleResponse, Thrown>)
    requires UserInput(body1).Some? && UserInput(body2).Some?
    requires Trim(UserInput(body1).value) == Trim(UserInput(body2).value)
    ensures Post(Success(body1), apiKey, generate) == Post(Success(body2), apiKey, generate)
  {
  }

  /**
   * Every message the schedule validator throws is classified as a validation
   * error and reported after the prefix, unless it happens to name the API
   * key variable or "parse JSON" (an activity name can).
   */
  lemma ValidatorErrorsAreValidation(e: ScheduleValidator.ValidationError)
    requires !NamesKey(ScheduleValidator.Message(e)) && !NamesParse(ScheduleValidator.Message(e))
    ensures ErrorResponse(ErrorObject(ScheduleValidator.Message(e), false))
            == Response(500, ErrorBody(ValidationPrefix + ScheduleValidator.Message(e)))
  {
    ScheduleValidator.MessageIsMarked(e);
  }

  /**
   * An activity whose name contains "parse JSON" (and no underscore, so the
   * message cannot name the key variable) has its validation error reported
   * as a parse failure.
   */
  lemma ParseJsonNameIsMisreported(name: string)
    requires NamesParse(name) && '_' !in name
    ensures ErrorResponse(ErrorObject(ScheduleValidator.Message(ScheduleValidator.NoValidDays(name)), false))
            == Response(500, ErrorBody(ParseFailureMessage))
  {
    var m := ScheduleValidator.Message(ScheduleValidator.NoValidDays(name));
    NoValidDaysMessage(name);
    MissingCharExcludes(m, "ANTHROPIC_API_KEY", 9);
    assert Classify(ErrorObject(m, false)) == ParseFailure;
  }

  /** The "no valid days" message contains the activity's name and adds no underscore. */
  lemma NoValidDaysMessage(name: string)
    requires NamesParse(name) && '_' !in name
    ensures var m := ScheduleValidator.Message(ScheduleValidator.NoValidDays(name));
            NamesParse(m) && '_' !in m
  {
    var m := ScheduleValidator.Message(ScheduleValidator.NoValidDays(name));
    var a, b := "Activity" + " \"", "\" " + "has no valid days";
    assert m == a + name + b;
    IncludesWithin(a, name, b, "parse JSON");
    assert '_' !in a && '_' !in b;
  }

  /** A string contained in the middle part is contained in the whole. */
  lemma IncludesWithin(a: string, s: string, b: string, t: string)
    requires Includes(s, t)
    ensures Includes(a + s + b, t)
  {
    var i :| 0 <= i <= |s| - |t| && OccursAt(s, t, i);
    assert (a + s + b)[|a| + i..|a| + i + |t|] == s[i..i + |t|];
    assert OccursAt(a + s + b, t, |a| + i);
  }

  /** A string containing a character `s` lacks does not occur in `s`. */
  lemma MissingCharExcludes(s: string, t: string, k: nat)
    requires k < |t| && t[k] !in s
    ensures !Includes(s, t)
  {
    forall i | 0 <= i <= |s| - |t|
      ensures !OccursAt(s, t, i)
    {
      if OccursAt(s, t, i) {
        OccurrenceChars(s, t, i, k);
      }
    }
  }

  lemma OccurrenceChars(s: string, t: string, i: int, k: nat)
    requires OccursAt(s, t, i) && k < |t|
    ensures t[k] in s
  {
    assert s[i + k] == s[i..i + |t|][k];
  }
}
