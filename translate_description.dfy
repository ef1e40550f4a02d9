/**
 * The description translation handler: read `text` and `targetLang` from
 * the request body, check the language against a fixed allowlist, then
 * check that there is text, and only then ask the translation service for
 * an English-to-target translation.
 */
module TranslateDescription {
  import opened Wrappers
  import opened Responses

  /** A body field as the decoded JSON object holds it: left out, explicitly null, or a string. */
  datatype JsonField = Absent | Null | Str(s: string) {

    /** `body.get(key, default)`: a left-out field reads as the default; null stays null. */
    function GetOr(default: string): JsonField {
      if Absent? then Str(default) else this
    }

    /** The field is a non-empty string (an absent, null or empty field is falsy). */
    predicate Truthy() {
      Str? && s != ""
    }
  }

  /** The fields of the decoded request body that the handler reads. */
  datatype RequestBody = RequestBody(text: JsonField, targetLang: JsonField)

  /** The incoming event; `None` is a body that is absent, null or empty, which reads as `{}`. */
  datatype TranslateEvent = TranslateEvent(body: Option<RequestBody>)

  /** One call to the translation service: text, source language code, target language code. */
  datatype TranslateCall = TranslateCall(text: string, sourceLanguage: string, targetLanguage: string)

  /** The response together with the translation calls issued while producing it, in order. */
  datatype Outcome = Outcome(response: Response, calls: seq<TranslateCall>)

  /** The target languages the handler accepts. */
  const AllowedLanguages: seq<string> := ["it", "pl", "ru"]
  const DefaultTargetLanguage: string := "it"
  const SourceLanguage: string := "en"
  const TextRequiredMessage: string := "Text is required"

  /** The header map every response of this handler carries. */
  function CorsHeaders(): (h: Headers)
    ensures h.Keys == {"Content-Type", "Access-Control-Allow-Origin",
                       "Access-Control-Allow-Methods", "Access-Control-Allow-Headers"}
    ensures h["Content-Type"] == "application/json"
    ensures h["Access-Control-Allow-Origin"] == "https://d31opzenb97zag.cloudfront.net"
    ensures h["Access-Control-Allow-Methods"] == "GET,POST,OPTIONS"
    ensures h["Access-Control-Allow-Headers"] == "Content-Type"
  {
    map[
      "Content-Type" := "application/json",
      "Access-Control-Allow-Origin" := "https://d31opzenb97zag.cloudfront.net",
      "Access-Control-Allow-Methods" := "GET,POST,OPTIONS",
      "Access-Control-Allow-Headers" := "Content-Type"
    ]
  }

  // ---- The invalid-language message: the allowlist written as a Python list literal.

  /** A string as Python's `repr` writes it, for strings without quotes or escapes. */
  function Quoted(s: string): string {
    "'" + s + "'"
  }

  /** The elements of a list of strings, quoted and separated by ", ". */
  function ReprItems(xs: seq<string>): string {
    if xs == [] then ""
    else if |xs| == 1 then Quoted(xs[0])
    else Quoted(xs[0]) + ", " + ReprItems(xs[1..])
  }

  /** A list of strings as Python formats it inside an f-string. */
  function ListRepr(xs: seq<string>): string {
    "[" + ReprItems(xs) + "]"
  }

  function InvalidLanguageMessage(): string {
    "Invalid target language. Choose one of " + ListRepr(AllowedLanguages)
  }

  /** `part` occurs in `s` starting at position `i`. */
  ghost predicate OccursAt(s: string, part: string, i: int) {
    0 <= i && i + |part| <= |s| && s[i..i + |part|] == part
  }

  /** `part` occurs somewhere in `s`. */
  ghost predicate Contains(s: string, part: string) {
    exists i :: OccursAt(s, part, i)
  }

  lemma ContainsWithin(pre: string, s: string, post: string, part: string)
    requires Contains(s, part)
    ensures Contains(pre + s + post, part)
  {
    var i :| OccursAt(s, part, i);
    var t := pre + s + post;
    assert t[|pre| + i..|pre| + i + |part|] == s[i..i + |part|];
    assert OccursAt(t, part, |pre| + i);
  }

  /** Every element of the list appears, quoted, in its rendering. */
  lemma {:induction false} ReprItemsContains(xs: seq<string>, k: nat)
    requires k < |xs|
    ensures Contains(ReprItems(xs), Quoted(xs[k]))
  {
    var q := Quoted(xs[k]);
    if |xs| == 1 || k == 0 {
      var r := ReprItems(xs);
      assert r[0..|q|] == q;
      assert OccursAt(r, q, 0);
    } else {
      ReprItemsContains(xs[1..], k - 1);
      ContainsWithin(Quoted(xs[0]) + ", ", ReprItems(xs[1..]), "", q);
      assert Quoted(xs[0]) + ", " + ReprItems(xs[1..]) + "" == ReprItems(xs);
    }
  }

  /** The invalid-language message names every allowed language. */
  lemma InvalidLanguageMessageNamesAllowlist(k: nat)
    requires k < |AllowedLanguages|
    ensures Contains(InvalidLanguageMessage(), Quoted(AllowedLanguages[k]))
  {
    ReprItemsContains(AllowedLanguages, k);
    ContainsWithin("Invalid target language. Choose one of [", ReprItems(AllowedLanguages), "]",
                   Quoted(AllowedLanguages[k]));
    assert "Invalid target language. Choose one of [" + ReprItems(AllowedLanguages) + "]"
        == InvalidLanguageMessage();
  }

  /** The exact text of the invalid-language message. */
  lemma InvalidLanguageMessageText()
    ensures InvalidLanguageMessage() == "Invalid target language. Choose one of ['it', 'pl', 'ru']"
  {
  }

  // ---- Normalising the request.

  /** The body fields, with a missing body read as an empty object. */
  function Fields(e: TranslateEvent): RequestBody {
    e.body.GetOr(RequestBody(Absent, Absent))
  }

  /** `text`, defaulting to "" when the body does not have it. */
  function RequestedText(e: TranslateEvent): (f: JsonField)
    ensures (e.body.None? || e.body.value.text.Absent?) ==> f == Str("")
    ensures e.body.Some? && !e.body.value.text.Absent? ==> f == e.body.value.text
  {
    Fields(e).text.GetOr("")
  }

  /** `targetLang`, defaulting to Italian when the body does not have it. */
  function RequestedLanguage(e: TranslateEvent): (f: JsonField)
    ensures (e.body.None? || e.body.value.targetLang.Absent?) ==> f == Str(DefaultTargetLanguage)
    ensures e.body.Some? && !e.body.value.targetLang.Absent? ==> f == e.body.value.targetLang
  {
    Fields(e).targetLang.GetOr(DefaultTargetLanguage)
  }

  /** The requested target language is a string on the allowlist (null never is). */
  predicate LanguageAllowed(e: TranslateEvent) {
    RequestedLanguage(e).Str? && RequestedLanguage(e).s in AllowedLanguages
  }

  /** The request carries non-empty text. */
  predicate TextPresent(e: TranslateEvent) {
    RequestedText(e).Truthy()
  }

  // ---- The handler.

  /**
   * The handler.  `translate` stands for the translation service: it maps
   * (text, source language, target language) to the translated text.
   */
  function HandleTranslate(e: TranslateEvent, translate: (string, string, string) -> string): (o: Outcome)
    ensures o.response.headers == CorsHeaders()
    ensures o.response.statusCode in {StatusBadRequest, StatusOk}
    ensures o.response.statusCode == StatusOk <==> LanguageAllowed(e) && TextPresent(e)
    // the language is checked first, whatever the text
    ensures !LanguageAllowed(e) ==>
      o.response.statusCode == StatusBadRequest
      && o.response.body == Message(InvalidLanguageMessage()) && o.calls == []
    // then the text
    ensures LanguageAllowed(e) && !TextPresent(e) ==>
      o.response.statusCode == StatusBadRequest
      && o.response.body == Message(TextRequiredMessage) && o.calls == []
    // only a valid request reaches the service, exactly once, from English
    ensures LanguageAllowed(e) && TextPresent(e) ==>
      var call := TranslateCall(RequestedText(e).s, SourceLanguage, RequestedLanguage(e).s);
      && o.calls == [call]
      && o.response.body == Translated(translate(call.text, call.sourceLanguage, call.targetLanguage))
  {
    var text := RequestedText(e);
    var targetLang := RequestedLanguage(e);
    if !(targetLang.Str? && targetLang.s in AllowedLanguages) then
      Outcome(Response(StatusBadRequest, Message(InvalidLanguageMessage()), CorsHeaders()), [])
    else if !text.Truthy() then
      Outcome(Response(StatusBadRequest, Message(TextRequiredMessage), CorsHeaders()), [])
    else
      var result := translate(text.s, SourceLanguage, targetLang.s);
      Outcome(Response(StatusOk, Translated(result), CorsHeaders()),
              [TranslateCall(text.s, SourceLanguage, targetLang.s)])
  }

  /** An invalid language wins over missing text: the reply names the allowlist, not the text. */
  lemma LanguageCheckedBeforeText(e: TranslateEvent, translate: (string, string, string) -> string)
    requires !LanguageAllowed(e) && !TextPresent(e)
    ensures HandleTranslate(e, translate).response.body == Message(InvalidLanguageMessage())
    ensures HandleTranslate(e, translate).response.body != Message(TextRequiredMessage)
  {
  }

  /** With non-empty text and no `targetLang`, the service is asked for Italian. */
  lemma DefaultTargetIsItalian(text: string, translate: (string, string, string) -> string)
    requires text != ""
    ensures var e := TranslateEvent(Some(RequestBody(Str(text), Absent)));
      && HandleTranslate(e, translate).calls == [TranslateCall(text, "en", "it")]
      && HandleTranslate(e, translate).response
         == Response(StatusOk, Translated(translate(text, "en", "it")), CorsHeaders())
  {
  }

  /** A missing body reads as `{}`: the text defaults to "" and the request is refused without a call. */
  lemma MissingBodyNeedsText(translate: (string, string, string) -> string)
    ensures var o := HandleTranslate(TranslateEvent(None), translate);
      && o.response == Response(StatusBadRequest, Message(TextRequiredMessage), CorsHeaders())
      && o.calls == []
  {
  }
}
