/** The "Translation to Code" page (src/pages/LangueToCode.js) as an
    immutable page record and pure transitions: file upload, validation,
    platform change, and the guarded submission with its two outcomes. */
module LangueToCode {
  import opened Seqs
  import opened Strings
  import opened Formats
  import opened Validation
  import Platforms
  import opened Generation
  import opened Browser

  /** The page's React state; the copy flag and preview toggle are left out. */
  datatype Page = Page(
    inputText: string,
    sourceCode: string,
    sourceLanguage: Format,
    targetLanguage: string,
    targetFramework: string,
    generatedCode: string,
    isLoading: bool,
    error: string,
    validationStatus: Status)

  const Initial: Page := Page("", "", Json, "react", "react-i18next", "", false, "", Unchecked)

  /** The page after `validateInput` and the boolean it returned. */
  datatype Validated = Validated(page: Page, ok: bool)

  /** `validateInput(text)` in a render whose `sourceLanguage` is `format`:
      success marks the input valid and leaves the error alone; failure marks
      it invalid and reports "Invalid <FORMAT> format: <message>". */
  function ValidateInput(p: Page, text: string, format: Format, json: JsonParser): (v: Validated)
    ensures v.ok <==> Check(text, format, json).Accepted?
    ensures v.ok ==> v.page == p.(validationStatus := Valid)
    ensures !v.ok ==> v.page == p.(validationStatus := Invalid,
      error := "Invalid " + ToUpper(format.Value()) + " format: " + Check(text, format, json).message)
  {
    match Check(text, format, json)
    case Accepted => Validated(p.(validationStatus := Valid), true)
    case Rejected(m) => Validated(p.(validationStatus := Invalid, error := ErrorMessage(format, m)), false)
  }

  /** Validation keeps no state of its own: running it twice on the same
      input is the same as running it once. */
  lemma ValidateIdempotent(p: Page, text: string, format: Format, json: JsonParser)
    ensures var v := ValidateInput(p, text, format, json);
      ValidateInput(v.page, text, format, json) == v
  {
  }

  /** The validation status agrees with the check of the current input in the
      current format, once a check has been made. */
  ghost predicate Consistent(p: Page, json: JsonParser)
  {
    p.validationStatus != Unchecked ==>
      (p.validationStatus == Valid <==> Check(p.inputText, p.sourceLanguage, json).Accepted?)
  }

  /** Typing in the translation textarea: the text is stored and, when
      non-empty, validated in the current format. */
  function EditInput(p: Page, value: string, json: JsonParser): (q: Page)
    ensures q.inputText == value && q.sourceLanguage == p.sourceLanguage
    ensures value == "" ==> q == p.(inputText := value)
    ensures value != "" ==> Consistent(q, json) && q.validationStatus != Unchecked
    ensures value != "" ==> q == ValidateInput(p.(inputText := value), value, p.sourceLanguage, json).page
  {
    var p' := p.(inputText := value);
    if value != "" then ValidateInput(p', value, p.sourceLanguage, json).page else p'
  }

  /** The source format after uploading a file named `name`: the detected
      format, or the current one when the extension matches no row. */
  function FormatAfterUpload(name: string, current: Format): (f: Format)
    ensures Detect(Extension(name)).Some? ==> f == Detect(Extension(name)).value
    ensures Detect(Extension(name)).None? ==> f == current
  {
    match Detect(Extension(name))
    case Some(detected) => detected
    case None => current
  }

  /** `handleFileUpload` as written. The handler is a closure over the
      render it was created in, so `validateInput` still sees the format
      from BEFORE the upload, even though the detected format has been
      scheduled; the text is nevertheless validated in that old format. */
  function HandleFileUpload(p: Page, u: Upload, json: JsonParser): (q: Page)
    ensures u.NoFile? ==> q == p
    ensures u.File? && u.contents.ReadFailed? ==>
      q == p.(error := "Error reading file", validationStatus := Invalid)
    ensures u.File? && u.contents.Read? ==>
      && q.inputText == u.contents.text
      && q.sourceLanguage == FormatAfterUpload(u.name, p.sourceLanguage)
      && (q.validationStatus == Valid <==> Check(u.contents.text, p.sourceLanguage, json).Accepted?)
      && q.validationStatus != Unchecked
      && q == ValidateInput(p.(inputText := u.contents.text,
                               sourceLanguage := FormatAfterUpload(u.name, p.sourceLanguage)),
                             u.contents.text, p.sourceLanguage, json).page
  {
    match u
    case NoFile => p
    case File(name, ReadFailed) => p.(error := "Error reading file", validationStatus := Invalid)
    case File(name, Read(text)) =>
      var p' := p.(inputText := text, sourceLanguage := FormatAfterUpload(name, p.sourceLanguage));
      ValidateInput(p', text, p.sourceLanguage, json).page
  }

  /** The upload handler as evidently intended: the uploaded text is
      validated in the format just detected from its name. */
  function HandleFileUploadFresh(p: Page, u: Upload, json: JsonParser): (q: Page)
    ensures u.NoFile? ==> q == p
    ensures u.File? && u.contents.ReadFailed? ==>
      q == p.(error := "Error reading file", validationStatus := Invalid)
    ensures u.File? && u.contents.Read? ==>
      && q.inputText == u.contents.text
      && q.sourceLanguage == FormatAfterUpload(u.name, p.sourceLanguage)
      && q.validationStatus != Unchecked
      && Consistent(q, json)
  {
    match u
    case NoFile => p
    case File(name, ReadFailed) => p.(error := "Error reading file", validationStatus := Invalid)
    case File(name, Read(text)) =>
      var f := FormatAfterUpload(name, p.sourceLanguage);
      ValidateInput(p.(inputText := text, sourceLanguage := f), text, f, json).page
  }

  /** The stale format, exhibited: with XML selected, uploading any
      `<stem>.json` holding `{}` switches the format to JSON yet marks the
      input invalid (it was checked as XML), although the JSON parser accepts
      it; the intended handler marks it valid. */
  lemma StaleFormatOnUpload(stem: string, json: JsonParser)
    requires json.accepts("{}")
    ensures var p := Initial.(sourceLanguage := Xml);
      var u := File(stem + ".json", Read("{}"));
      && HandleFileUpload(p, u, json).sourceLanguage == Json
      && HandleFileUpload(p, u, json).validationStatus == Invalid
      && !Consistent(HandleFileUpload(p, u, json), json)
      && HandleFileUploadFresh(p, u, json).validationStatus == Valid
  {
    StaleUploadDetectsJson(stem);
    assert !HasTag("{}");
  }

  /** After that upload, whatever the JSON parser, the page reports an XML
      error for what it now shows as a JSON file, and its Generate button is
      disabled. */
  lemma StaleFormatBlocksGenerate(stem: string, json: JsonParser)
    ensures var q := HandleFileUpload(Initial.(sourceLanguage := Xml),
                                      File(stem + ".json", Read("{}")), json);
      && q.error == "Invalid XML format: Invalid XML"
      && !GenerateEnabled(q)
  {
    var p := Initial.(sourceLanguage := Xml);
    StaleUploadDetectsJson(stem);
    assert !HasTag("{}");
    assert Check("{}", Xml, json) == Rejected("Invalid XML");
    var q := ValidateInput(p.(inputText := "{}", sourceLanguage := Json), "{}", Xml, json).page;
    assert q.error == ErrorMessage(Xml, "Invalid XML") && q.validationStatus == Invalid;
    UntaggedXmlMessage();
  }

  /** A file name ending in `.json` selects JSON. */
  lemma StaleUploadDetectsJson(stem: string)
    ensures FormatAfterUpload(stem + ".json", Xml) == Json
  {
    DetectFileNamedAfter(stem, Json);
    assert "." + Json.Value() == ".json";
    assert stem + "." + Json.Value() == stem + ".json";
  }

  /** Choosing a target platform. The effect depends on `targetLanguage`, so
      it runs only when the value actually changes; it then resets the
      framework to the platform's first listed framework. Choosing the
      platform already selected changes nothing. */
  function ChangeTarget(p: Page, target: string): (q: Page)
    ensures q.targetLanguage == target
    ensures target == p.targetLanguage ==> q == p
    ensures target != p.targetLanguage ==>
      q.targetFramework == Platforms.FrameworkAfterChange(target, p.targetFramework)
    ensures target != p.targetLanguage ==> Platforms.Compatible(target, q.targetFramework)
    ensures target != p.targetLanguage ==> Platforms.IsDefault(target, q.targetFramework)
    ensures (forall i :: 0 <= i < |Platforms.Table| ==> Platforms.Table[i].value != target) ==>
      q.targetFramework == p.targetFramework
    ensures Platforms.Compatible(p.targetLanguage, p.targetFramework) ==>
      Platforms.Compatible(q.targetLanguage, q.targetFramework)
    ensures q.(targetLanguage := p.targetLanguage, targetFramework := p.targetFramework) == p
  {
    if target == p.targetLanguage then p
    else
      Platforms.ChangeKeepsCompatible(target, p.targetFramework);
      p.(targetLanguage := target,
         targetFramework := Platforms.FrameworkAfterChange(target, p.targetFramework))
  }

  /** The prompt sent for the current page: the instructions, then the
      translation file, then the source code, each interpolated verbatim.
      It opens with the target platform, names the framework and the format
      in capitals, carries the translation file whole, and ends with the
      source code. */
  function Prompt(p: Page): (s: string)
    ensures "Generate a " + p.targetLanguage <= s
    ensures Contains(s, " component using " + p.targetFramework + " with these requirements:\n")
    ensures Contains(s, "1. Convert this " + ToUpper(p.sourceLanguage.Value()) + " translation file\n")
    ensures Contains(s, "Translation file:\n" + p.inputText + "\n")
    ensures EndsWith(s, "Source code to translate:\n" + p.sourceCode)
  {
    var opening := "Generate a " + p.targetLanguage;
    var mid := TranslationSection(p.inputText);
    var tail := SourceSection(p.sourceCode);
    Sandwich(opening + Instructions(p), mid, tail);
    assert opening <= opening + Instructions(p);
    EndsWithTail(opening + Instructions(p) + mid + tail, "\n", "Source code to translate:\n" + p.sourceCode);
    InPrompt(opening, Instructions(p), mid, tail, UsingLine(p));
    InPrompt(opening, Instructions(p), mid, tail, ConvertLine(p));
    opening + Instructions(p) + mid + tail
  }

  /** What the instructions contain is in the prompt built around them. */
  lemma InPrompt(opening: string, instructions: string, mid: string, tail: string, needle: string)
    requires Contains(instructions, needle)
    ensures Contains(opening + instructions + mid + tail, needle)
  {
    ContainsAfter(opening, instructions, needle);
    ContainsBefore(opening + instructions, mid, needle);
    ContainsBefore(opening + instructions + mid, tail, needle);
  }

  /** The numbered requirements following "Generate a <platform>": the
      framework line, the conversion line naming the format in capitals, and
      the fixed requirements. */
  function Instructions(p: Page): (r: string)
    ensures Contains(r, UsingLine(p))
    ensures Contains(r, ConvertLine(p))
  {
    var using := UsingLine(p);
    var convert := ConvertLine(p);
    var rest := Requirements(p);
    ContainsAt(using, using, 0);
    ContainsBefore(using, convert, using);
    ContainsBefore(using + convert, rest, using);
    ContainsMiddle(using, convert, rest);
    using + convert + rest
  }

  function UsingLine(p: Page): string
  {
    " component using " + p.targetFramework + " with these requirements:\n"
  }

  function ConvertLine(p: Page): string
  {
    "1. Convert this " + ToUpper(p.sourceLanguage.Value()) + " translation file\n"
  }

  function Requirements(p: Page): string
  {
    "2. Implement full i18n support\n"
    + "3. Include proper error handling and validation\n"
    + "4. Implement best practices for " + p.targetLanguage + " and " + p.targetFramework + "\n"
    + "5. Give me  only the code don't put any extra information.\n"
    + "\n"
  }

  function TranslationSection(inputText: string): string
  {
    "Translation file:\n" + inputText + "\n"
  }

  function SourceSection(sourceCode: string): string
  {
    "\n" + ("Source code to translate:\n" + sourceCode)
  }

  /** What a click on Generate produced before the service answers: no call
      at all, or a call with this prompt from this page. */
  datatype Submission = Skipped(page: Page) | Sent(page: Page, prompt: string)

  /** The guard and entry of `generateCode`: empty input returns at once,
      without even validating; otherwise the input is validated in the
      current format, and an invalid input or empty source code stops there.
      A call starts loading and clears both the error and the previous code. */
  function Submit(p: Page, json: JsonParser): (s: Submission)
    ensures p.inputText == "" ==> s == Skipped(p)
    ensures s.Sent? <==>
      p.inputText != "" && Check(p.inputText, p.sourceLanguage, json).Accepted? && p.sourceCode != ""
    ensures p.inputText != "" && s.Skipped? ==>
      s.page == ValidateInput(p, p.inputText, p.sourceLanguage, json).page
    ensures s.Sent? ==>
      s.page == p.(validationStatus := Valid, isLoading := true, error := "", generatedCode := "")
      && s.prompt == Prompt(p)
  {
    if p.inputText == "" then Skipped(p)
    else
      var v := ValidateInput(p, p.inputText, p.sourceLanguage, json);
      if !v.ok || p.sourceCode == "" then Skipped(v.page)
      else Sent(v.page.(isLoading := true, error := "", generatedCode := ""), Prompt(p))
  }

  /** The end of `generateCode` once the service has answered: the code on
      success, a fixed error on failure, and loading off either way. */
  function Complete(p: Page, r: Response): (q: Page)
    ensures !q.isLoading
    ensures r.Success? ==> q == p.(isLoading := false, generatedCode := r.text)
    ensures r.Failure? ==> q == p.(isLoading := false, error := "Failed to generate code")
  {
    match r
    case Success(text) => p.(generatedCode := text, isLoading := false)
    case Failure => p.(error := "Failed to generate code", isLoading := false)
  }

  /** A whole click on Generate, with `r` standing for the service's answer
      when a call is made. */
  function GenerateCode(p: Page, json: JsonParser, r: Response): (q: Page)
    ensures !q.isLoading || (Submit(p, json).Skipped? && q.isLoading == p.isLoading)
    ensures Submit(p, json).Sent? && r.Success? ==>
      q.generatedCode == r.text && q.error == "" && q.validationStatus == Valid
    ensures Submit(p, json).Sent? && r.Failure? ==>
      q.error == "Failed to generate code" && q.generatedCode == ""
    ensures Submit(p, json).Skipped? ==> q.generatedCode == p.generatedCode
  {
    match Submit(p, json)
    case Skipped(q) => q
    case Sent(q, _) => Complete(q, r)
  }

  /** The Generate button is enabled (`disabled` is false): nothing is in
      flight, the last check passed, and both text areas hold something. */
  function GenerateEnabled(p: Page): (enabled: bool)
    ensures enabled <==>
      !p.isLoading && p.validationStatus == Valid && p.inputText != "" && p.sourceCode != ""
  {
    !(p.isLoading || p.inputText == "" || p.validationStatus != Valid || p.sourceCode == "")
  }

  /** While a call is in flight the button is disabled, so a page admits at
      most one call at a time through the button. */
  lemma SentDisablesButton(p: Page, json: JsonParser)
    requires Submit(p, json).Sent?
    ensures !GenerateEnabled(Submit(p, json).page)
  {
  }

  /** An enabled button on a page whose status reflects its input always
      leads to a call; a stale `valid` (the format changed after the check)
      is re-checked by the guard instead. */
  lemma EnabledButtonSends(p: Page, json: JsonParser)
    requires GenerateEnabled(p) && Consistent(p, json)
    ensures Submit(p, json).Sent?
  {
  }
}
