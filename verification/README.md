# apptranslation — a Dafny model of the two page components

The application is a React front end with two forms that turn user input
into a prompt for a generative-language service and show its raw answer:

- **Translation to Code** (`src/pages/LangueToCode.js`) takes a translation
  file (JSON, XML, YAML, properties or iOS strings), a target platform and
  i18n framework, and source code, and asks for an internationalised
  component.
- **Code to Langue** (`src/pages/CodeToLangue.js`) takes code, a target
  platform, a file type and a list of locales, and asks for translation
  files.

The model pulls the decisions buried in the two components out as pure
functions over strings and an explicit, immutable page record:

| file | module | models |
|---|---|---|
| `seqs.dfy` | `Seqs` | `Option`, `Array.prototype.find` (first match) and the last element that `pop` returns |
| `strings.dfy` | `Strings` | `split` on one character, `join`, `includes`, ASCII `toLowerCase`/`toUpperCase` |
| `formats.dfy` | `Formats` | the format table and detection of a format from a file name |
| `validation.dfy` | `Validation` | `validateInput`'s check: JSON parser, the `<[^>]+>` tag regex, always-valid other formats |
| `platforms.dfy` | `Platforms` | the platform table and the framework reset on platform change |
| `generation.dfy` | `Generation` | the service call reduced to its outcome |
| `browser.dfy` | `Browser` | the file-input event: no file, or a file whose read succeeded or failed |
| `langue_to_code.dfy` | `LangueToCode` | upload, typing, platform change, the guarded submission and its outcomes |
| `code_to_langue.dfy` | `CodeToLangue` | upload, prompt, the guarded submission and its outcomes |

A click on Generate is split in two: `Submit` yields either no call
(`Skipped`, with the page after the guard) or a call (`Sent`, with the page
while loading and the prompt); `Complete` applies the service's answer,
given as a `Response` (`Success(text)` or `Failure`). The whole click is
`GenerateCode` / `GenerateFiles`.

`JSON.parse` is a parameter, `JsonParser(accepts, message)`: whether it
accepts a text and the message of the error it throws otherwise. Reading the
uploaded file is a parameter too: its contents, or a read failure.

Three behaviours of the code are easy to miss, and the model follows them:

- The fifth target platform's value is `swift` (shown as "Swift UI"), not
  `swiftui` (`src/pages/LangueToCode.js:32`), while Code to Langue's
  platform select starts at `swiftui`.
- In Code to Langue a failed generation does NOT discard the previous
  result: `generatedFiles` is only ever set on success
  (`src/pages/CodeToLangue.js:63`) and the failure branch (:64-66) leaves it,
  so the old files stay on screen under the error (`CodeToLangue.Complete`).
  Translation to Code does discard its result, because `generateCode` clears
  `generatedCode` before the call (`src/pages/LangueToCode.js:109`).
- Format detection tests whether the row's extension string contains the
  extension (`includes`, `src/pages/LangueToCode.js:79`), not whether the
  extension is one of a set: `yml`, `js`, `ml`, `o` and the empty extension
  all select a format.

## Model

| member | source | states |
|---|---|---|
| Seqs.FindIndex | src/pages/LangueToCode.js:79 | the index `find` stops at: the first index whose element satisfies the predicate; None exactly when no element does |
| Seqs.Find | src/pages/LangueToCode.js:37 | `find` returns an element at the first index whose element satisfies the predicate; undefined exactly when none does |
| Strings.ContainsIff | src/pages/LangueToCode.js:79 | the `includes` scan holds exactly when the needle occurs at some position of the text (the empty string occurs everywhere) |
| Strings.Split | src/pages/LangueToCode.js:78 | `split('.')` yields at least one piece and no piece contains the separator |
| Strings.JoinSplit | src/pages/LangueToCode.js:78 | joining the pieces of a split with the separator gives the name back |
| Strings.SplitJoin | src/pages/LangueToCode.js:78 | splitting a join of separator-free pieces gives the pieces back |
| Strings.LastPiece | src/pages/LangueToCode.js:78 | the popped piece is the text after the last dot, or the whole name when it has none |
| Strings.Join | src/pages/CodeToLangue.js:54 | `join` of no parts is the empty string; otherwise the result begins with the first part |
| Strings.ToLower | src/pages/LangueToCode.js:78 | `toLowerCase` keeps the length and lower-cases every character in place |
| Strings.ToLowerIdempotent | src/pages/LangueToCode.js:78 | lower-casing twice is lower-casing once |
| Strings.ToUpper | src/pages/LangueToCode.js:59 | `toUpperCase` keeps the length, upper-cases every character in place, leaves no lower-case letter, and agrees with the input once both are lower-cased |
| Strings.CaseRoundTrip | src/pages/LangueToCode.js:59 | upper-casing then lower-casing is lower-casing, and lower-casing then upper-casing is upper-casing |
| Strings.JoinOccurs | src/pages/CodeToLangue.js:54 | every element of a list occurs in `join(', ')` of it |
| Formats.Extension | src/pages/LangueToCode.js:78 | the extension is the lower-cased dot-free suffix of the name that follows a dot or is the whole name |
| Formats.ExtensionAfterLastDot | src/pages/LangueToCode.js:78 | the extension of `stem.e` is `e` lower-cased, whatever dots the stem has |
| Formats.Detect | src/pages/LangueToCode.js:79-82 | the detected format is that of the first table row whose extension string contains the extension; none when no row does |
| Formats.DetectYml | src/pages/LangueToCode.js:22 | `yml` selects YAML through the row ".yaml, .yml" |
| Formats.DetectJs | src/pages/LangueToCode.js:20 | `js` selects JSON, being a substring of ".json" |
| Formats.DetectEmptyExtension | src/pages/LangueToCode.js:19-25 | the empty extension selects JSON, the first row |
| Formats.TrailingDotDetectsJson | src/pages/LangueToCode.js:78-79 | a file name ending in a dot selects JSON |
| Formats.DetectMl | src/pages/LangueToCode.js:20-21 | `ml` selects XML: it is in ".xml" and not in ".json" |
| Formats.DetectUnlisted | src/pages/LangueToCode.js:79-82 | `txt` selects no format |
| Formats.DetectOwnValue | src/pages/LangueToCode.js:19-25 | each format's own value as extension selects that format |
| Formats.DetectFileNamedAfter | src/pages/LangueToCode.js:78-81 | a file `stem.<value>` selects the format with that value |
| Validation.HasTagIff | src/pages/LangueToCode.js:51 | `<[^>]+>` matches exactly when some `<` followed by a non-`>` character is followed later by a `>` |
| Validation.FirstClose | src/pages/LangueToCode.js:51 | the first `>` after a position closes the regex match: nothing before it is `>` |
| Validation.ScanForTag | src/pages/LangueToCode.js:51 | a single left-to-right pass decides the regex match exactly |
| Validation.HasTagExamples | src/pages/LangueToCode.js:51 | `<<>` and `<a>` match, `<>` and `a>b<` do not |
| Validation.Check | src/pages/LangueToCode.js:45-54 | JSON is accepted iff the parser accepts it (rejection carries its message), XML iff it contains a tag (else "Invalid XML"), every other format always |
| Validation.ErrorMessage | src/pages/LangueToCode.js:59 | the rejection message starts with "Invalid ", then the format's value upper-cased character by character, and ends with " format: " and the parser's message |
| Validation.XmlErrorMessage | src/pages/LangueToCode.js:59 | an XML rejection reads "Invalid XML format: " followed by the message |
| Validation.UntaggedXmlMessage | src/pages/LangueToCode.js:51 | XML input without a tag shows "Invalid XML format: Invalid XML" |
| Validation.OnlyJsonAndXmlRejected | src/pages/LangueToCode.js:45-56 | only JSON and XML input can be rejected |
| Platforms.TableWellFormed | src/pages/LangueToCode.js:27-33 | every platform lists a framework and platform values are distinct |
| Platforms.Lookup | src/pages/LangueToCode.js:37 | the platform found has the requested value; none exactly when no row has it |
| Platforms.FrameworkAfterChange | src/pages/LangueToCode.js:35-41 | a listed platform resets the framework to its first listed framework; an unlisted value keeps the framework |
| Platforms.ChangeKeepsCompatible | src/pages/LangueToCode.js:35-41 | after a platform change the framework is one the platform lists |
| Platforms.InitialSelectionStable | src/pages/LangueToCode.js:9-10 | the initial React / react-i18next pair is a fixed point of the reset |
| LangueToCode.ValidateInput | src/pages/LangueToCode.js:43-62 | success sets `valid`, returns true and leaves the error; failure sets `invalid`, returns false and sets "Invalid " + upper(format) + " format: " + message; nothing else changes |
| LangueToCode.ValidateIdempotent | src/pages/LangueToCode.js:43-62 | validating twice is validating once |
| LangueToCode.EditInput | src/pages/LangueToCode.js:216-219 | typed text is stored and nothing else changes when it is empty; non-empty text is validated in the current format, which sets the status and, on rejection, the error, exactly as `validateInput` does |
| LangueToCode.FormatAfterUpload | src/pages/LangueToCode.js:78-82 | an unmatched extension leaves the format unchanged, a matched one selects the detected format |
| LangueToCode.HandleFileUpload | src/pages/LangueToCode.js:70-90 | a read sets the text and the detected format and is then exactly `validateInput` run in the PRE-upload format (status and error included); a read failure sets "Error reading file" and `invalid` and keeps the text; no file changes nothing |
| LangueToCode.HandleFileUploadFresh | src/pages/LangueToCode.js:70-90 | the intended upload: the status agrees with the text in the detected format |
| LangueToCode.StaleFormatOnUpload | src/pages/LangueToCode.js:84 | for every parser that accepts `{}`, uploading `{}` as any `<stem>.json` while XML is selected yields format JSON with status `invalid`, inconsistent with the parser, where the intended handler gives `valid` |
| LangueToCode.StaleFormatBlocksGenerate | src/pages/LangueToCode.js:264 | after that upload, whatever the parser, the error reads "Invalid XML format: Invalid XML" and the Generate button is disabled |
| LangueToCode.StaleUploadDetectsJson | src/pages/LangueToCode.js:78-82 | a file name ending in `.json` selects JSON whatever was selected |
| LangueToCode.ChangeTarget | src/pages/LangueToCode.js:35-41 | choosing the platform already selected changes nothing; choosing another listed platform resets the framework to that platform's first listed framework; an unlisted value keeps the framework; compatibility is preserved and nothing else changes |
| LangueToCode.Prompt | src/pages/LangueToCode.js:112-123 | the prompt opens with "Generate a <platform>", contains the line naming the framework and the line naming the format in capitals, contains the translation section with the file verbatim, and ends with "Source code to translate:" and the source code verbatim |
| LangueToCode.Instructions | src/pages/LangueToCode.js:112-117 | the requirements contain the framework line and the "Convert this <FORMAT> translation file" line |
| LangueToCode.Submit | src/pages/LangueToCode.js:102-109 | a call happens iff the input is non-empty, validates, and the source code is non-empty; empty input changes nothing (no validation); a call sets loading and clears the error and the previous code |
| LangueToCode.Complete | src/pages/LangueToCode.js:125-131 | success stores the response, failure sets "Failed to generate code"; loading is off either way |
| LangueToCode.GenerateCode | src/pages/LangueToCode.js:102-132 | after a call the code is the response with no error, or empty with the fixed error, and loading is off |
| LangueToCode.GenerateEnabled | src/pages/LangueToCode.js:264 | the button is enabled exactly when nothing is loading, the status is `valid` and both the translation file and the source code are non-empty |
| LangueToCode.SentDisablesButton | src/pages/LangueToCode.js:264 | while a call is in flight the Generate button is disabled |
| LangueToCode.EnabledButtonSends | src/pages/LangueToCode.js:264 | an enabled button on a page whose status reflects its input leads to a call |
| CodeToLangue.HandleFileUpload | src/pages/CodeToLangue.js:18-33 | a read sets the text and clears the error and nothing else; a read failure sets "Error reading file" and keeps the text; no file changes nothing; the file name plays no part |
| CodeToLangue.UploadThenGenerate | src/pages/CodeToLangue.js:18-54 | after reading a non-empty file on an idle page the button is enabled, a click sends a prompt, and the prompt ends with the file's text verbatim |
| CodeToLangue.Prompt | src/pages/CodeToLangue.js:54 | the prompt opens with "Translate the following code into <platform> and generate a <type> file.", so it names the platform and the file type; it contains the selected locales joined by ", " as one run and ends with "Here is the code:", a blank line and the input verbatim |
| CodeToLangue.Request | src/pages/CodeToLangue.js:54 | the opening request names the selected platform and the selected file type |
| CodeToLangue.Lead | src/pages/CodeToLangue.js:54 | the instructions before the locale list begin with the request |
| CodeToLangue.PromptNamesLocales | src/pages/CodeToLangue.js:54 | the prompt contains every selected locale |
| CodeToLangue.LocaleListExamples | src/pages/CodeToLangue.js:54 | english and french join to "english, french"; no locale joins to "" |
| CodeToLangue.Submit | src/pages/CodeToLangue.js:40-50 | a call happens iff the input is non-empty; empty input only sets "Please enter or upload code"; a call sets loading and clears the error |
| CodeToLangue.Complete | src/pages/CodeToLangue.js:59-70 | success replaces the files by the one response; failure sets "Failed to generate files" and keeps the old files; loading is off; nothing else changes |
| CodeToLangue.GenerateFiles | src/pages/CodeToLangue.js:40-71 | a whole click: guard, call and outcome as above |
| CodeToLangue.GenerateEnabled | src/pages/CodeToLangue.js:150 | the button is enabled exactly when nothing is loading and a click would call the service |
| CodeToLangue.EnabledButtonSends | src/pages/CodeToLangue.js:150 | an enabled button leads to a call, during which it is disabled |

## Left out

- Rendering (JSX, styles, icons), the preview toggle and the `copied` flag: presentation only.
- Copy to clipboard and its two-second reset: browser I/O and a timer.
- The service client (`src/services/gemini.js`, the SDK calls in `src/pages/CodeToLangue.js`): a network call, modelled only as its outcome `Response`.
- `JSON.parse`: a foreign parser, modelled as the `JsonParser` parameter.
- `file.text()`: browser I/O, modelled as a read result.
- The plain select setters (source format, framework, Code to Langue's platform, file type and locales) and the plain text-area setters (source code, `src/pages/LangueToCode.js:253`; Code to Langue's input, `src/pages/CodeToLangue.js:116`): each only stores the value.
- Console logging in Code to Langue (`src/pages/CodeToLangue.js:19-68`): output to the developer console with no effect on the page.
- React's scheduling: updates made in one handler are applied in order as one step; the only effect of closures modelled is the stale format in the upload handler. A response arriving after the user changed the inputs is applied to whatever the page holds then; the model has one page value per step and does not interleave.
- Strings.ToLower: only ASCII letters are case-mapped; JavaScript's full Unicode mapping of `toLowerCase` is not modelled.
- Strings.ToUpper: only ASCII letters are case-mapped; JavaScript's full Unicode mapping of `toUpperCase` is not modelled (the format values it is applied to are ASCII).
- Routing (`src/App.js`) and the UI wrappers (`src/components/UI/index.js`): declarative configuration and presentation.

## Findings

| source | as written | input that shows it | evidently intended | confidence | as-written member | corrected member |
|---|---|---|---|---|---|---|
| src/pages/LangueToCode.js:84 | the uploaded text is validated in the format selected before the upload, because the handler's closure still sees the old `sourceLanguage` | XML selected; upload `messages.json` (any `<stem>.json`) holding `{}`: format becomes JSON, status `invalid` | validate in the format just detected, so the status agrees with the shown format | medium, not executed | LangueToCode.HandleFileUpload (counterexample LangueToCode.StaleFormatOnUpload) | LangueToCode.HandleFileUploadFresh |

After such an upload the page also shows the error "Invalid XML format:
Invalid XML" next to a file it now labels JSON, and the Generate button is
disabled because the status is `invalid` (`src/pages/LangueToCode.js:264`;
`LangueToCode.StaleFormatBlocksGenerate`), so valid input cannot be sent
until it is edited or re-validated. The guard of `generateCode` re-validates
in the current format, so the stale status never lets invalid input reach the
service.
