/**
 * The `/ocr` request handler and the `/languages` listing.
 *
 * The handler is a chain of guarded early returns. Its collaborators (the
 * image decoder, the colour conversion and the two OCR engine calls) are not
 * modelled; what each of them does for a request is an input. Besides the
 * response, the handler reports the collaborator calls it made, in order, so
 * that the order of the checks can be stated.
 */
module OcrApi {
  import opened Wrappers
  import opened PyText
  import Confidence
  import Languages

  /** Engine mode 3, page segmentation mode 6 (one uniform block of text). */
  const EngineConfig: string := "--oem 3 --psm 6"

  const NoImageProvided: string := "No image file provided"
  const NoImageSelected: string := "No image file selected"
  const InvalidImageFormat: string := "Invalid image format"
  const InternalErrorMessage: string := "Internal server error during text extraction"

  /** The uploaded part of the multipart form named `image`. */
  datatype Upload = Upload(filename: string)

  /** What the handler reads from the request: the `image` file part and the
      `language` form field, each of which may be absent. */
  datatype Request = Request(image: Option<Upload>, language: Option<string>)

  /** What each collaborator does when called for this request. */
  datatype Collaborators = Collaborators(
    open: Outcome<string>,            // decoding the bytes: the image's colour mode, or an exception
    convertRaises: bool,              // whether the conversion to RGB raises
    imageToString: Outcome<string>,   // the engine's text output
    imageToData: Outcome<seq<int>>)   // the engine's per-token confidences

  /** A call into a collaborator. */
  datatype Call =
    | OpenImage
    | ConvertToRgb
    | ImageToString(language: string, config: string)
    | ImageToData(language: string, config: string)

  /** The JSON bodies the handlers produce. */
  datatype Body =
    | ErrorBody(error: string)
    | FailureBody(success: bool, error: string)
    | RecognitionBody(success: bool, text: string, language: string, confidence: real, wordCount: nat)
    | LanguagesBody(supportedLanguages: map<string, string>)

  datatype Response = Response(status: nat, body: Body)

  /** The response to a request and the collaborator calls made to produce it. */
  datatype Handled = Handled(response: Response, calls: seq<Call>)

  function Reject(error: string, calls: seq<Call>): Handled {
    Handled(Response(400, ErrorBody(error)), calls)
  }

  function Fail(calls: seq<Call>): Handled {
    Handled(Response(500, FailureBody(false, InternalErrorMessage)), calls)
  }

  /** The `word_count` field: `len(text.split())` for a non-empty text, else 0. */
  function WordCountField(text: string): nat {
    if text != "" then |Words(text)| else 0
  }

  /** The success body built from the engine's raw text and confidences. */
  function Recognition(raw: string, language: string, confidences: seq<int>): Body {
    var text := Strip(raw);
    RecognitionBody(true, text, language, Confidence.Average(confidences), WordCountField(text))
  }

  /** The two engine calls, made once the image is decoded and normalised. */
  function Recognize(language: string, env: Collaborators, calls: seq<Call>): Handled {
    var toString := ImageToString(language, EngineConfig);
    match env.imageToString
    case Raised => Fail(calls + [toString])
    case Returned(raw) =>
      var toData := ImageToData(language, EngineConfig);
      match env.imageToData
      case Raised => Fail(calls + [toString, toData])
      case Returned(confidences) =>
        Handled(Response(200, Recognition(raw, language, confidences)), calls + [toString, toData])
  }

  /** `POST /ocr`. */
  function ExtractText(req: Request, env: Collaborators): Handled {
    if req.image.None? then Reject(NoImageProvided, [])
    else if req.image.value.filename == "" then Reject(NoImageSelected, [])
    else
      var language := Languages.Resolve(req.language);
      if !Languages.IsSupported(language) then Reject(Languages.UnsupportedMessage, [])
      else
        match env.open
        case Raised => Reject(InvalidImageFormat, [OpenImage])
        case Returned(mode) =>
          var converts := mode != "RGB";
          var calls := [OpenImage] + (if converts then [ConvertToRgb] else []);
          if converts && env.convertRaises then Fail(calls)
          else Recognize(language, env, calls)
  }

  /** `GET /languages`. */
  function GetSupportedLanguages(): Response {
    Response(200, LanguagesBody(Languages.Catalog()))
  }

  // ---------------------------------------------------------------------
  // Properties of the handler

  /** The request passes every check made before the decoder is called. */
  predicate PassesValidation(req: Request) {
    && req.image.Some?
    && req.image.value.filename != ""
    && Languages.IsSupported(Languages.Resolve(req.language))
  }

  /** Every response is a 200 with a recognition body, a 400 with an error
      body, or a 500 with the fixed failure body. */
  lemma ResponseShapes(req: Request, env: Collaborators)
    ensures var r := ExtractText(req, env).response;
      || (r.status == 200 && r.body.RecognitionBody? && r.body.success)
      || (r.status == 400 && r.body.ErrorBody?)
      || (r.status == 500 && r.body == FailureBody(false, InternalErrorMessage))
  {
  }

  /** A request without an image part is rejected first, whatever its language
      and whatever the collaborators would do, and nothing is called. */
  lemma MissingImageFirst(req: Request, env: Collaborators)
    requires req.image.None?
    ensures ExtractText(req, env) == Handled(Response(400, ErrorBody(NoImageProvided)), [])
  {
  }

  /** An empty file name is rejected next, and only when the image part is there. */
  lemma EmptyFilenameSecond(req: Request, env: Collaborators)
    ensures ExtractText(req, env).response == Response(400, ErrorBody(NoImageSelected))
      <==> req.image.Some? && req.image.value.filename == ""
    ensures req.image.Some? && req.image.value.filename == "" ==> ExtractText(req, env).calls == []
  {
  }

  /** Once an image with a file name is present, the language is rejected exactly
      when its resolved value is outside the allow-list; the empty value is one such. */
  lemma UnsupportedLanguageThird(req: Request, env: Collaborators)
    requires req.image.Some? && req.image.value.filename != ""
    ensures ExtractText(req, env).response == Response(400, ErrorBody(Languages.UnsupportedMessage))
      <==> !Languages.IsSupported(Languages.Resolve(req.language))
    ensures !Languages.IsSupported(Languages.Resolve(req.language)) ==> ExtractText(req, env).calls == []
    ensures req.language == Some("") ==> ExtractText(req, env).response.status == 400
  {
  }

  /** The rejection of a language does not depend on the rejected value: any two
      such requests get the same response. */
  lemma UnsupportedMessageOmitsValue(req1: Request, env1: Collaborators, req2: Request, env2: Collaborators)
    requires req1.image.Some? && req1.image.value.filename != ""
    requires req2.image.Some? && req2.image.value.filename != ""
    requires !Languages.IsSupported(Languages.Resolve(req1.language))
    requires !Languages.IsSupported(Languages.Resolve(req2.language))
    ensures ExtractText(req1, env1).response == ExtractText(req2, env2).response
  {
  }

  /** The decoder is consulted exactly when the request passes validation, and
      it is always the first collaborator called. */
  lemma DecoderAfterValidation(req: Request, env: Collaborators)
    ensures OpenImage in ExtractText(req, env).calls <==> PassesValidation(req)
    ensures ExtractText(req, env).calls == [] <==> !PassesValidation(req)
    ensures ExtractText(req, env).calls != [] ==> ExtractText(req, env).calls[0] == OpenImage
  {
  }

  /** An image the decoder rejects gets a 400 and the engine is never called. */
  lemma UndecodableImage(req: Request, env: Collaborators)
    requires PassesValidation(req) && env.open.Raised?
    ensures ExtractText(req, env) == Handled(Response(400, ErrorBody(InvalidImageFormat)), [OpenImage])
  {
  }

  /** Conversion to RGB happens exactly when a decoded image is in another colour mode. */
  lemma ConversionOnlyWhenNotRgb(req: Request, env: Collaborators)
    ensures ConvertToRgb in ExtractText(req, env).calls
      <==> PassesValidation(req) && env.open.Returned? && env.open.value != "RGB"
  {
  }

  /** Once the request is valid and the image decodes, the calls are, in order:
      the decoder, the conversion when the mode is not RGB, and then, unless
      the conversion raised, the text call and, when the text call returned,
      the confidence call, both with the validated language. */
  lemma CallsPastDecoding(req: Request, env: Collaborators)
    requires PassesValidation(req) && env.open.Returned?
    ensures var language := Languages.Resolve(req.language);
      var conv := if env.open.value != "RGB" then [ConvertToRgb] else [];
      ExtractText(req, env).calls ==
        if env.open.value != "RGB" && env.convertRaises then [OpenImage] + conv
        else ([OpenImage] + conv + [ImageToString(language, EngineConfig)]
              + (if env.imageToString.Returned? then [ImageToData(language, EngineConfig)] else []))
  {
  }

  /** Every engine call uses the validated language and the fixed configuration,
      and the confidence call is only made after the text call. */
  lemma EngineCallsUseRequestLanguage(req: Request, env: Collaborators)
    ensures EngineCallsUse(ExtractText(req, env).calls, Languages.Resolve(req.language))
  {
    var language := Languages.Resolve(req.language);
    if PassesValidation(req) && env.open.Returned? {
      var calls := [OpenImage] + (if env.open.value != "RGB" then [ConvertToRgb] else []);
      assert EngineCallsUse(calls, language);
      RecognizeCallsUse(language, env, calls);
    }
  }

  lemma RecognizeCallsUse(language: string, env: Collaborators, calls: seq<Call>)
    requires EngineCallsUse(calls, language)
    ensures EngineCallsUse(Recognize(language, env, calls).calls, language)
  {
    var toString := ImageToString(language, EngineConfig);
    var toData := ImageToData(language, EngineConfig);
    var withText := calls + [toString];
    assert EngineCallsUse(withText, language) by {
      assert forall i :: 0 <= i < |calls| ==> withText[i] == calls[i];
    }
    var withBoth := calls + [toString, toData];
    assert EngineCallsUse(withBoth, language) by {
      assert forall i :: 0 <= i < |calls| ==> withBoth[i] == calls[i];
      assert withBoth[|calls|] == toString;
    }
  }

  /** Every engine call in `calls` passes `language` and the fixed configuration,
      and a confidence call comes right after a text call. */
  predicate EngineCallsUse(calls: seq<Call>, language: string) {
    && (forall i :: 0 <= i < |calls| && (calls[i].ImageToString? || calls[i].ImageToData?) ==>
          calls[i].language == language && calls[i].config == EngineConfig)
    && (forall i :: 0 <= i < |calls| && calls[i].ImageToData? ==> 0 < i && calls[i - 1].ImageToString?)
  }

  /** The request gets a 500 exactly when it passes validation and decoding and
      then the conversion or either engine call raises; the body never carries
      any detail of the failure. */
  lemma EngineFailure(req: Request, env: Collaborators)
    ensures ExtractText(req, env).response.status == 500
      <==> (PassesValidation(req) && env.open.Returned?
        && ((env.open.value != "RGB" && env.convertRaises) || env.imageToString.Raised? || env.imageToData.Raised?))
    ensures ExtractText(req, env).response.status == 500 ==>
      ExtractText(req, env).response == Response(500, FailureBody(false, InternalErrorMessage))
  {
  }

  /** A text engine failure stops the pipeline before the confidence call. */
  lemma TextFailureSkipsData(req: Request, env: Collaborators)
    requires PassesValidation(req) && env.open.Returned?
    requires !(env.open.value != "RGB" && env.convertRaises)
    requires env.imageToString.Raised?
    ensures forall c :: c in ExtractText(req, env).calls ==> !c.ImageToData?
  {
  }

  /** The request succeeds exactly when every check and every collaborator does. */
  lemma SuccessIff(req: Request, env: Collaborators)
    ensures ExtractText(req, env).response.status == 200
      <==> (PassesValidation(req) && env.open.Returned?
        && !(env.open.value != "RGB" && env.convertRaises)
        && env.imageToString.Returned? && env.imageToData.Returned?)
  {
  }

  /** What a successful response carries: the validated language, the engine
      text without surrounding whitespace, its number of words, and the average
      of the positive confidences, within 0 to 100 as the engine's values are. */
  lemma {:induction false} SuccessBody(req: Request, env: Collaborators)
    requires PassesValidation(req) && env.open.Returned?
    requires !(env.open.value != "RGB" && env.convertRaises)
    requires env.imageToString.Returned? && env.imageToData.Returned?
    ensures var b := ExtractText(req, env).response.body;
      var raw := env.imageToString.value;
      && ExtractText(req, env).response.status == 200
      && b.RecognitionBody?
      && b.success
      && b.language == Languages.Resolve(req.language) && Languages.IsSupported(b.language)
      && b.text == Strip(raw) && Trimmed(b.text)
      && b.wordCount == |Words(raw)|
      && (b.wordCount >= 1 <==> b.text != "")
      && b.confidence == Confidence.Average(env.imageToData.value)
      && (Confidence.InEngineRange(env.imageToData.value) ==> 0.0 <= b.confidence <= 100.0)
  {
    var raw := env.imageToString.value;
    WordCountMatchesSplit(raw);
    Confidence.ZeroIffNoPositive(env.imageToData.value);
    if Confidence.InEngineRange(env.imageToData.value) {
      Confidence.AverageInPercentRange(env.imageToData.value);
    }
  }

  /** The `word_count` field is the number of words of the raw engine output,
      and it is positive exactly when the stripped text is non-empty. */
  lemma {:induction false} WordCountMatchesSplit(raw: string)
    ensures WordCountField(Strip(raw)) == |Words(raw)|
    ensures WordCountField(Strip(raw)) >= 1 <==> Strip(raw) != ""
  {
    WordsOfStrip(raw);
    StripEmptyIffAllSpace(raw);
    WordsEmptyIffAllSpace(raw);
  }

  /** Whitespace the engine adds around its output changes nothing in the response. */
  lemma {:induction false} EnginePaddingIrrelevant(req: Request, env: Collaborators, p: string, q: string)
    requires AllSpace(p) && AllSpace(q)
    requires env.imageToString.Returned?
    ensures ExtractText(req, env.(imageToString := Returned(p + env.imageToString.value + q)))
      == ExtractText(req, env)
  {
    var env' := env.(imageToString := Returned(p + env.imageToString.value + q));
    if PassesValidation(req) && env.open.Returned? {
      var language := Languages.Resolve(req.language);
      var mode := env.open.value;
      var calls := [OpenImage] + (if mode != "RGB" then [ConvertToRgb] else []);
      StripIgnoresPadding(p, env.imageToString.value, q);
      assert Recognize(language, env', calls) == Recognize(language, env, calls);
    }
  }

  /** `GET /languages` lists exactly the languages the handler accepts. */
  lemma LanguagesListing()
    ensures GetSupportedLanguages().status == 200
    ensures GetSupportedLanguages().body.LanguagesBody?
    ensures forall language :: (language in GetSupportedLanguages().body.supportedLanguages
      <==> Languages.IsSupported(language))
    ensures GetSupportedLanguages().body.supportedLanguages == map[
      "eng" := "English", "ukr" := "Ukrainian", "eng+ukr" := "English + Ukrainian"]
  {
    Languages.CatalogMatchesAllowList();
  }
}
