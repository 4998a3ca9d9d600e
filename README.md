# simple-ocr-server: the text-extraction request pipeline in Dafny

The service has one real endpoint, `POST /ocr`. It takes an uploaded image and
an optional `language` form field, and it returns the text that the Tesseract
OCR engine reads from the image. The handler in `src/app.py` runs a fixed
sequence of steps:

1. It checks the upload.
2. It resolves the language and checks it against a three-entry allow-list.
3. It decodes the image and converts it to RGB.
4. It calls the engine twice: once for the text and once for per-token confidences.
5. It builds a JSON body: the stripped text, the language, the average of the
   positive confidences, and the word count.

If the conversion, either engine call, or anything else past the decoder check
raises, the response is a generic 500; a decoder failure is a 400. `GET /languages` serves the fixed catalog of language names.

The model is pure, like the handler: datatypes, functions and lemmas.

- `wrappers.dfy` (`Wrappers`) holds `Option` (a form field that may be missing)
  and `Outcome` (a foreign call that returned a value or raised).
- `languages.dfy` (`Languages`) holds the allow-list `["eng", "ukr", "eng+ukr"]`,
  the default `eng`, `request.form.get('language', 'eng')` as `Resolve`, the
  rejection message, and the catalog.
- `pytext.dfy` (`PyText`) holds Python's `str.strip()` and `str.split()` with no
  arguments, over the explicit set of characters for which `str.isspace()` holds.
  It also holds two reference definitions: the run count `RunCount` and the
  whitespace-free text `Squeeze`.
- `confidence.dfy` (`Confidence`) keeps the confidences that are strictly
  positive and averages them as an exact `real`. The average is 0 when none are
  positive.
- `ocr_api.dfy` (`OcrApi`) holds the handler `ExtractText` and the listing
  `GetSupportedLanguages`. The collaborators are inputs (`Collaborators`):
  - the decoder's result (the colour mode, or an exception);
  - whether the RGB conversion raises;
  - the results of `image_to_string` and `image_to_data`.

  `ExtractText` returns the response (status and body). It also returns the
  calls it made to collaborators, in order. That list is how the order of the
  checks is stated: the decoder is called only after validation, and the
  engine only after decoding.

The decoder only reads what it needs to identify the format. An image whose
header is valid but whose data is damaged passes decoding, and the error comes
later, from the conversion or from the engine. The model covers that case: the
decoder returns, a later collaborator raises, and the response is a 500.

The model follows the code in two places where other readings are possible:

- The unsupported-language error does not name the rejected value. It prints
  only the allow-list (src/app.py:47), and the model uses that text.
  `OcrApi.UnsupportedMessageOmitsValue` proves the body does not depend on the
  rejected value.
- A `language` field that is present but empty is not replaced by the
  default. The code passes it through, so it is rejected.

## Model

| member | source | states |
|---|---|---|
| `Languages.IsSupported` | src/app.py:43-44 | Membership in the allow-list `['eng', 'ukr', 'eng+ukr']`. How the handler uses it is stated by `UnsupportedLanguageThird` and `ResolveDefaults`. |
| `Languages.UnsupportedMessage` | src/app.py:45-47 | The f-string body of the language error, with the list rendered as Python prints it. `UnsupportedMessageOmitsValue` shows it does not depend on the rejected value. |
| `Languages.Resolve` | src/app.py:39 | `request.form.get('language', 'eng')`. Its properties are in `Languages.ResolveDefaults`. |
| `Languages.ResolveDefaults` | src/app.py:39 | An absent field resolves to `eng`, which is allowed. A present field is taken as it is, so an empty value is rejected, not defaulted. |
| `Languages.Catalog` | src/app.py:101-105 | The fixed code-to-name map. Its properties are in `Languages.CatalogMatchesAllowList`. |
| `Languages.CatalogMatchesAllowList` | src/app.py:101-105 | The catalog has exactly three keys. They are the allow-list used for validation (src/app.py:44). The display names are `English`, `Ukrainian` and `English + Ukrainian`. |
| `PyText.IsSpace` | src/app.py:73-85 | The code points for which `str.isspace()` holds, the whitespace that `strip()` and `split()` use. Its role is stated by `StripIsCore`, `StripCharacterized`, `WordsCons` and `WordsAreTokens`. |
| `PyText.Strip` | src/app.py:69-73 | The stripped engine text has no whitespace at either end. |
| `PyText.StripIsCore` | src/app.py:73 | The raw text is whitespace, then the stripped text, then whitespace. |
| `PyText.StripCharacterized` | src/app.py:73 | Whenever the input is a trimmed text between two runs of whitespace, `strip()` returns that text. So strip is determined uniquely. |
| `PyText.StripEmptyIffAllSpace` | src/app.py:73 | The stripped text is empty exactly when the raw text is all whitespace. |
| `PyText.StripIgnoresPadding` | src/app.py:73 | Whitespace added at either end does not change the stripped text. |
| `PyText.StripIdempotent` | src/app.py:73 | Stripping twice gives the same text as stripping once. |
| `PyText.Words` | src/app.py:85 | `str.split()` with no arguments. Its contract is carried by `WordsAreTokens`, `WordsKeepNonSpace`, `WordsCountRuns`, `WordsEmptyIffAllSpace`, `WordsIgnorePadding`, `WordsOfStrip` and `WordsCons`. |
| `PyText.WordsAreTokens` | src/app.py:85 | Every word that `split()` returns is non-empty and has no whitespace. |
| `PyText.WordsKeepNonSpace` | src/app.py:85 | Joined back together, the words give exactly the non-whitespace characters of the input, in order. |
| `PyText.WordsCountRuns` | src/app.py:85 | The number of words equals the number of maximal non-whitespace runs, counted by an independent left-to-right scan. |
| `PyText.WordsEmptyIffAllSpace` | src/app.py:85 | `split()` finds no word exactly when the text is all whitespace. |
| `PyText.WordsIgnorePadding` | src/app.py:85 | Whitespace added at either end does not change the words. |
| `PyText.WordsOfStrip` | src/app.py:73-85 | Splitting the stripped text gives the same words as splitting the raw text. |
| `PyText.WordsCons` | src/app.py:85 | A non-empty whitespace-free word followed by whitespace or nothing is split off whole, ahead of the words of the rest. With `WordsSpacePrefix` and `Words("") == []` this determines `split()` on every input. |
| `PyText.TwoWordsSplit` | src/app.py:85 | Two words with whitespace between them and around them split into exactly those two words. |
| `PyText.TwoWordsStrip` | src/app.py:73 | Two words with whitespace between them and around them strip to the two words with the inner whitespace kept, as `"  hello   world  "` strips to `"hello   world"`. |
| `PyText.HelloWorldCount` | src/app.py:85 | The text `"  hello   world  "` has two words. |
| `Confidence.Average` | src/app.py:77-78 | The positive-only mean, or 0 when there is none. Its properties are in `ZeroIffNoPositive`, `AverageWithin`, `AverageInPercentRange`, `NonPositiveIgnored`, `Example` and `ExampleRepeated`. |
| `Confidence.Positive` | src/app.py:77 | The kept confidences are all positive. A value is kept exactly when it occurs in the input and is positive, and it is kept as many times as it occurs there (a positive value's count is the same in both lists, and other values' count is 0). |
| `Confidence.ZeroIffNoPositive` | src/app.py:78 | The average is never negative. It is exactly 0 when no confidence is positive. |
| `Confidence.AverageWithin` | src/app.py:77-78 | When some confidence is positive, the average lies between any lower and upper bound of the positive values, so between their minimum and maximum. |
| `Confidence.AverageInPercentRange` | src/app.py:77-78 | If every engine value is at most 100, the average is in [0, 100]. It is strictly above 0 when some value is positive. |
| `Confidence.NonPositiveIgnored` | src/app.py:77-78 | Adding a value of zero or below anywhere in the list does not change the average. |
| `Confidence.Example` | src/app.py:77-78 | `[-1, 0, 80, 90]` averages to 85. A list with no positive value averages to 0. |
| `Confidence.ExampleRepeated` | src/app.py:77-78 | A repeated confidence counts as often as it occurs: `[80, 80, 90]` averages to 250/3. |
| `OcrApi.ExtractText` | src/app.py:21-96 | The `/ocr` handler. Its contract is carried by the lemmas `ResponseShapes`, `MissingImageFirst`, `EmptyFilenameSecond`, `UnsupportedLanguageThird`, `UnsupportedMessageOmitsValue`, `DecoderAfterValidation`, `UndecodableImage`, `ConversionOnlyWhenNotRgb`, `CallsPastDecoding`, `EngineCallsUseRequestLanguage`, `TextFailureSkipsData`, `EngineFailure`, `SuccessIff`, `SuccessBody` and `EnginePaddingIrrelevant`. |
| `OcrApi.Recognize` | src/app.py:66-89 | The two engine calls and the success body. Its behaviour is carried by `CallsPastDecoding`, `EngineCallsUseRequestLanguage`, `TextFailureSkipsData`, `EngineFailure` and `SuccessBody`. |
| `OcrApi.Recognition` | src/app.py:73-86 | The success dict: stripped text, language, positive-only average and word count. Its fields are stated by `SuccessBody`. |
| `OcrApi.Fail` | src/app.py:91-96 | The fixed 500 body. When it is returned is stated by `EngineFailure`. |
| `OcrApi.ResponseShapes` | src/app.py:26-96 | Every response is one of three: a 200 with a successful recognition body, a 400 with an error body, or a 500 with the fixed failure body. |
| `OcrApi.MissingImageFirst` | src/app.py:30-31 | Without an `image` part the response is 400 `No image file provided`. This holds whatever the language and the collaborators are, and nothing is called. |
| `OcrApi.EmptyFilenameSecond` | src/app.py:33-36 | The response is 400 `No image file selected` exactly when the part is present with an empty file name. Nothing is called then. |
| `OcrApi.UnsupportedLanguageThird` | src/app.py:39-48 | Once a named image is present, the language error is returned exactly when the resolved language is outside the allow-list. Nothing is called then, and the empty value is rejected. |
| `OcrApi.UnsupportedMessageOmitsValue` | src/app.py:46-48 | Any two requests that carry a named image and a rejected language get the same response, whatever the rejected values are. |
| `OcrApi.DecoderAfterValidation` | src/app.py:51-57 | The decoder is called exactly when all three checks pass. It is always the first collaborator called. |
| `OcrApi.UndecodableImage` | src/app.py:54-57 | If decoding fails, the response is 400 `Invalid image format`. The decoder is the only call made, so the engine is never called. |
| `OcrApi.ConversionOnlyWhenNotRgb` | src/app.py:59-61 | The RGB conversion is called exactly when a decoded image is in another colour mode. |
| `OcrApi.CallsPastDecoding` | src/app.py:54-76 | Once the request is valid and the image decodes, the call log is exactly: the decoder; the conversion when the mode is not RGB; then, unless the conversion raised, `image_to_string` and, when that returned, `image_to_data`, both with the validated language and the fixed configuration. |
| `OcrApi.EngineCallsUseRequestLanguage` | src/app.py:66-76 | Both engine calls get the resolved language and the fixed `--oem 3 --psm 6` configuration. The confidence call comes right after the text call. Which engine calls are actually made, and in what order, is stated by `CallsPastDecoding`. |
| `OcrApi.TextFailureSkipsData` | src/app.py:69-76 | If the text call raises, the confidence call is never made. |
| `OcrApi.EngineFailure` | src/app.py:91-96 | The response is 500 exactly when validation and decoding pass and then the conversion or either engine call raises. The body is then the fixed `success: false` message, with no engine detail. |
| `OcrApi.SuccessIff` | src/app.py:26-89 | The response is 200 exactly when every check passes and every collaborator returns. |
| `OcrApi.SuccessBody` | src/app.py:80-86 | A success body has `success = true` and the validated language. Its text is the stripped engine output, which has no whitespace at either end. Its word count is the number of words of the raw output, and is at least 1 exactly when the text is non-empty. Its confidence is the positive-only average, within [0, 100] when the engine values are. |
| `OcrApi.WordCountField` | src/app.py:85 | The guarded `word_count` expression. Its properties are in `WordCountMatchesSplit`. |
| `OcrApi.WordCountMatchesSplit` | src/app.py:85 | The guarded `len(text.split()) if text else 0` equals the number of words of the raw output. It is positive exactly when the stripped text is non-empty. |
| `OcrApi.EnginePaddingIrrelevant` | src/app.py:69-73 | Whitespace the engine adds around its text output changes nothing in the response. |
| `OcrApi.GetSupportedLanguages` | src/app.py:98-106 | `GET /languages`. Its properties are in `LanguagesListing`. |
| `OcrApi.LanguagesListing` | src/app.py:98-106 | `GET /languages` returns 200 with the three fixed entries. It lists exactly the languages the handler accepts. |

## Left out

- Flask routing, form parsing and `jsonify` are not modelled. The handler reads
  its request as the `Request` value. The `/health` endpoint and the 404 and 413
  handlers return constant bodies and are framework glue.
- Image decoding and RGB conversion belong to the PIL library. The model takes
  what they did for the request as inputs: the decoded colour mode or an
  exception, and whether the conversion raises. The decoded pixels are not
  modelled.
- The OCR engine is an external program. Its two results (text, and the list of
  confidences, or an exception) are inputs, and they are independent of each
  other. The engine's path setting (src/app.py:13) is process setup.
- The `int(conf)` conversion of the engine's confidence column is not modelled:
  the confidences arrive as integers. A value that `int()` cannot convert raises,
  which the handler maps to the same 500 as an engine failure.
- `round(avg_confidence, 2)` is floating-point rounding. The `confidence`
  field is the exact rational average.
- `file.read()` is not modelled. Neither are exceptions raised by request
  access or by `jsonify`. The handler maps all of them to the same 500; the
  model only gives the 500 for the conversion and the two engine calls.
- Logging (the file name's value is used only there; the model keeps it only for the empty-name test), the port and environment
  settings, and `app.run` are I/O and process setup.
