/**
 * The request-body rules of the search, refine and store-du'a endpoints:
 * which field values are accepted, how accepted strings are transformed
 * (trimmed) and which defaults fill absent fields. A body is a map from field
 * names to decoded JSON values; an absent key is an undefined field.
 */
module Validation {
  import opened Text

  const MaxQueryLength: nat := 2000
  const MaxUserInputLength: nat := 5000
  const MaxContextLength: nat := 2000
  const MaxHadithContextLength: nat := 5000

  /** The hadith editions a search may be restricted to, in display order. */
  const HadithEditions: seq<string> := [
    "eng-bukhari",
    "eng-muslim",
    "eng-abudawud",
    "eng-tirmidhi",
    "eng-nasai",
    "eng-ibnmajah",
    "eng-malik",
    "eng-nawawi",
    "eng-qudsi",
    "eng-dehlawi"
  ]

  /** A decoded JSON value, as far as the rules distinguish values. */
  datatype Value = Str(s: string) | Bool(b: bool) | Null | Number | Composite

  /** Why a field was rejected. */
  datatype Issue = NotAString | Required | TooLong(max: nat) | RequiredAfterTrimming
                 | NotAnOption | NotABoolean | NotAnObject

  datatype Result<T> = Ok(value: T) | Fail(field: string, issue: Issue)

  /** The search intents. */
  datatype Intent = Problem | RefineIntent | Goal

  /** `safeString(maxLen)`: a string of 1 to `maxLen` characters as sent, which is
      then trimmed and must still be non-empty. */
  function SafeString(field: string, v: Option<Value>, maxLen: nat): (r: Result<string>)
    ensures r.Ok? <==>
      v.Some? && v.value.Str? && 1 <= |v.value.s| <= maxLen && Trim(v.value.s) != ""
    ensures r.Ok? ==>
      && r.value == Trim(v.value.s)
      && 1 <= |r.value| <= maxLen
      && !IsSpace(r.value[0]) && !IsSpace(r.value[|r.value| - 1])
    ensures v.Some? && v.value.Str? && |v.value.s| > maxLen ==> r == Fail(field, TooLong(maxLen))
  {
    if v.None? || !v.value.Str? then Fail(field, NotAString)
    else
      var s := v.value.s;
      if |s| < 1 then Fail(field, Required)
      else if |s| > maxLen then Fail(field, TooLong(maxLen))
      else if Trim(s) == "" then Fail(field, RequiredAfterTrimming)
      else Ok(Trim(s))
  }

  /** `optionalSafeString(maxLen)`: undefined becomes "", a string of at most `maxLen`
      characters is trimmed, anything else is rejected. */
  function OptionalSafeString(field: string, v: Option<Value>, maxLen: nat): (r: Result<string>)
    ensures v.None? ==> r == Ok("")
    ensures r.Ok? <==> v.None? || (v.value.Str? && |v.value.s| <= maxLen)
    ensures r.Ok? && v.Some? ==> r.value == Trim(v.value.s)
    ensures r.Ok? ==> |r.value| <= maxLen
  {
    match v
    case None => Ok("")
    case Some(Str(s)) =>
      if |s| > maxLen then Fail(field, TooLong(maxLen))
      else
        var t := Trim(s);
        Ok(t[..if |t| < maxLen then |t| else maxLen])
    case Some(_) => Fail(field, NotAString)
  }

  /** `z.string().max(maxLen).optional()`: an optional string kept as sent. */
  function OptionalString(field: string, v: Option<Value>, maxLen: nat): (r: Result<Option<string>>)
    ensures r.Ok? <==> v.None? || (v.value.Str? && |v.value.s| <= maxLen)
    ensures r.Ok? ==> (r.value.Some? <==> v.Some?) && (v.Some? ==> r.value.value == v.value.s)
  {
    match v
    case None => Ok(None)
    case Some(Str(s)) => if |s| > maxLen then Fail(field, TooLong(maxLen)) else Ok(Some(s))
    case Some(_) => Fail(field, NotAString)
  }

  /** The string that names an intent in a request. */
  function IntentName(i: Intent): string {
    match i
    case Problem => "problem"
    case RefineIntent => "refine"
    case Goal => "goal"
  }

  /** `z.enum(["problem", "refine", "goal"]).optional()`. */
  function OptionalIntent(v: Option<Value>): (r: Result<Option<Intent>>)
    ensures r.Ok? <==> v.None? || (v.value.Str? && v.value.s in {"problem", "refine", "goal"})
    ensures r.Ok? ==> (r.value.None? <==> v.None?)
    ensures r.Ok? && v.Some? ==> IntentName(r.value.value) == v.value.s
  {
    match v
    case None => Ok(None)
    case Some(Str(s)) =>
      if s == "problem" then Ok(Some(Problem))
      else if s == "refine" then Ok(Some(RefineIntent))
      else if s == "goal" then Ok(Some(Goal))
      else Fail("intent", NotAnOption)
    case Some(_) => Fail("intent", NotAnOption)
  }

  /** The search `edition`: one of the editions or "", defaulting to "". */
  function EditionField(v: Option<Value>): (r: Result<string>)
    ensures v.None? ==> r == Ok("")
    ensures r.Ok? ==> r.value == "" || r.value in HadithEditions
    ensures v.Some? && v.value.Str? && (v.value.s == "" || v.value.s in HadithEditions) ==> r == Ok(v.value.s)
    ensures v.Some? && !(v.value.Str? && (v.value.s == "" || v.value.s in HadithEditions)) ==> r.Fail?
  {
    match v
    case None => Ok("")
    case Some(Str(s)) => if s == "" || s in HadithEditions then Ok(s) else Fail("edition", NotAnOption)
    case Some(_) => Fail("edition", NotAnOption)
  }

  /** `llm_filter`: a boolean, defaulting to true. */
  function LlmFilterField(v: Option<Value>): (r: Result<bool>)
    ensures v.None? ==> r == Ok(true)
    ensures r.Ok? <==> v.None? || v.value.Bool?
    ensures r.Ok? && v.Some? ==> r.value == v.value.b
  {
    match v
    case None => Ok(true)
    case Some(Bool(b)) => Ok(b)
    case Some(_) => Fail("llm_filter", NotABoolean)
  }

  function Field(body: map<string, Value>, name: string): Option<Value> {
    if name in body then Some(body[name]) else None
  }

  datatype SearchBody = SearchBody(query: string, intent: Option<Intent>, edition: string, llmFilter: bool)

  /** `searchBodySchema`. */
  function ParseSearchBody(body: map<string, Value>): (r: Result<SearchBody>)
    ensures r.Ok? <==>
      && SafeString("query", Field(body, "query"), MaxQueryLength).Ok?
      && OptionalIntent(Field(body, "intent")).Ok?
      && EditionField(Field(body, "edition")).Ok?
      && LlmFilterField(Field(body, "llm_filter")).Ok?
    ensures r.Ok? ==>
      && r.value.query == Trim(body["query"].s)
      && r.value.llmFilter == ("llm_filter" !in body || body["llm_filter"].b)
      && r.value.edition == (if "edition" in body then body["edition"].s else "")
      && (r.value.intent.Some? <==> "intent" in body)
      && ("intent" in body ==> IntentName(r.value.intent.value) == body["intent"].s)
    ensures r.Ok? ==>
      && 1 <= |r.value.query| <= MaxQueryLength
      && (r.value.edition == "" || r.value.edition in HadithEditions)
      && ("edition" !in body ==> r.value.edition == "")
      && ("llm_filter" !in body ==> r.value.llmFilter)
  {
    var query := SafeString("query", Field(body, "query"), MaxQueryLength);
    var intent := OptionalIntent(Field(body, "intent"));
    var edition := EditionField(Field(body, "edition"));
    var llmFilter := LlmFilterField(Field(body, "llm_filter"));
    if query.Fail? then Fail(query.field, query.issue)
    else if intent.Fail? then Fail(intent.field, intent.issue)
    else if edition.Fail? then Fail(edition.field, edition.issue)
    else if llmFilter.Fail? then Fail(llmFilter.field, llmFilter.issue)
    else Ok(SearchBody(query.value, intent.value, edition.value, llmFilter.value))
  }

  datatype RefineBody = RefineBody(userInput: string, nameOfAllah: string, hadith: string, quran: string)

  /** `refineBodySchema`. */
  function ParseRefineBody(body: map<string, Value>): (r: Result<RefineBody>)
    ensures r.Ok? <==>
      && SafeString("userInput", Field(body, "userInput"), MaxUserInputLength).Ok?
      && OptionalSafeString("nameOfAllah", Field(body, "nameOfAllah"), MaxContextLength).Ok?
      && OptionalSafeString("hadith", Field(body, "hadith"), MaxHadithContextLength).Ok?
      && OptionalSafeString("quran", Field(body, "quran"), MaxHadithContextLength).Ok?
    ensures r.Ok? ==>
      && r.value.userInput == Trim(body["userInput"].s)
      && r.value.nameOfAllah == (if "nameOfAllah" in body then Trim(body["nameOfAllah"].s) else "")
      && r.value.hadith == (if "hadith" in body then Trim(body["hadith"].s) else "")
      && r.value.quran == (if "quran" in body then Trim(body["quran"].s) else "")
    ensures r.Ok? ==>
      && 1 <= |r.value.userInput| <= MaxUserInputLength
      && |r.value.nameOfAllah| <= MaxContextLength
      && |r.value.hadith| <= MaxHadithContextLength
      && |r.value.quran| <= MaxHadithContextLength
  {
    var userInput := SafeString("userInput", Field(body, "userInput"), MaxUserInputLength);
    var name := OptionalSafeString("nameOfAllah", Field(body, "nameOfAllah"), MaxContextLength);
    var hadith := OptionalSafeString("hadith", Field(body, "hadith"), MaxHadithContextLength);
    var quran := OptionalSafeString("quran", Field(body, "quran"), MaxHadithContextLength);
    if userInput.Fail? then Fail(userInput.field, userInput.issue)
    else if name.Fail? then Fail(name.field, name.issue)
    else if hadith.Fail? then Fail(hadith.field, hadith.issue)
    else if quran.Fail? then Fail(quran.field, quran.issue)
    else Ok(RefineBody(userInput.value, name.value, hadith.value, quran.value))
  }

  datatype StoreDuaBody = StoreDuaBody(content: string, nameOfAllah: Option<string>,
                                       hadithSnippet: Option<string>, intent: Option<Intent>)

  /** `storeDuaBodySchema`. */
  function ParseStoreDuaBody(body: map<string, Value>): (r: Result<StoreDuaBody>)
    ensures r.Ok? <==>
      && SafeString("content", Field(body, "content"), MaxUserInputLength).Ok?
      && OptionalString("nameOfAllah", Field(body, "nameOfAllah"), MaxContextLength).Ok?
      && OptionalString("hadithSnippet", Field(body, "hadithSnippet"), MaxContextLength).Ok?
      && OptionalIntent(Field(body, "intent")).Ok?
    ensures r.Ok? ==>
      && r.value.content == Trim(body["content"].s)
      && r.value.nameOfAllah == (if "nameOfAllah" in body then Some(body["nameOfAllah"].s) else None)
      && r.value.hadithSnippet == (if "hadithSnippet" in body then Some(body["hadithSnippet"].s) else None)
      && (r.value.intent.Some? <==> "intent" in body)
      && ("intent" in body ==> IntentName(r.value.intent.value) == body["intent"].s)
    ensures r.Ok? ==>
      && 1 <= |r.value.content| <= MaxUserInputLength
      && (r.value.nameOfAllah.Some? ==> |r.value.nameOfAllah.value| <= MaxContextLength)
      && (r.value.hadithSnippet.Some? ==> |r.value.hadithSnippet.value| <= MaxContextLength)
  {
    var content := SafeString("content", Field(body, "content"), MaxUserInputLength);
    var name := OptionalString("nameOfAllah", Field(body, "nameOfAllah"), MaxContextLength);
    var snippet := OptionalString("hadithSnippet", Field(body, "hadithSnippet"), MaxContextLength);
    var intent := OptionalIntent(Field(body, "intent"));
    if content.Fail? then Fail(content.field, content.issue)
    else if name.Fail? then Fail(name.field, name.issue)
    else if snippet.Fail? then Fail(snippet.field, snippet.issue)
    else if intent.Fail? then Fail(intent.field, intent.issue)
    else Ok(StoreDuaBody(content.value, name.value, snippet.value, intent.value))
  }

  // ---- Properties ----

  /** An accepted string is a fixed point: sending the trimmed value again gives it back. */
  lemma SafeStringIdempotent(field: string, s: string, maxLen: nat)
    requires SafeString(field, Some(Str(s)), maxLen).Ok?
    ensures SafeString(field, Some(Str(Trim(s))), maxLen) == SafeString(field, Some(Str(s)), maxLen)
  {
    TrimIdempotent(s);
  }

  /** The length limit applies to the string as sent: padding a short value with
      whitespace past the limit gets it rejected although its trimmed form fits. */
  lemma LengthCheckedBeforeTrimming(field: string, s: string, pad: string, maxLen: nat)
    requires |s| + |pad| > maxLen
    ensures SafeString(field, Some(Str(s + pad)), maxLen) == Fail(field, TooLong(maxLen))
  {
  }

  /** A search body with just a valid query gets the defaults: no intent, every
      edition, and the model filter on. */
  lemma SearchDefaults(q: string)
    requires 1 <= |q| <= MaxQueryLength && Trim(q) != ""
    ensures ParseSearchBody(map["query" := Str(q)]) == Ok(SearchBody(Trim(q), None, "", true))
  {
    var body := map["query" := Str(q)];
    assert Field(body, "intent") == None;
    assert Field(body, "edition") == None;
    assert Field(body, "llm_filter") == None;
  }

  /** Exactly the listed editions and "" are accepted as the search edition. */
  lemma EditionAcceptedIff(e: string)
    ensures EditionField(Some(Str(e))).Ok? <==> e == "" || e in HadithEditions
  {
  }
}
