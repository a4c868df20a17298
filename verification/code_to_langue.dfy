/** The "Code to Langue" page (src/pages/CodeToLangue.js) as an immutable
    page record and pure transitions: file upload and the guarded
    generation of translation files with its two outcomes. */
module CodeToLangue {
  import opened Seqs
  import opened Strings
  import opened Generation
  import opened Browser

  /** The page's React state. Selections are kept as the select values. */
  datatype Page = Page(
    inputText: string,
    selectedLanguage: string,
    selectedFileType: string,
    selectedLanguages: seq<string>,
    generatedFiles: seq<string>,
    isLoading: bool,
    error: string)

  const Initial: Page := Page("", "swiftui", "json", [], [], false, "")

  /** `handleFileUpload`: a read replaces the input and clears the error; a
      failed read reports it and keeps the input. The file name plays no part. */
  function HandleFileUpload(p: Page, u: Upload): (q: Page)
    ensures u.NoFile? ==> q == p
    ensures u.File? && u.contents.ReadFailed? ==> q == p.(error := "Error reading file")
    ensures u.File? && u.contents.Read? ==> q == p.(inputText := u.contents.text, error := "")
  {
    match u
    case NoFile => p
    case File(_, ReadFailed) => p.(error := "Error reading file")
    case File(_, Read(text)) => p.(inputText := text, error := "")
  }

  /** A successful upload leaves the page ready to generate from the file:
      the button is enabled unless a call is in flight, and a click sends
      the file's text verbatim at the end of the prompt. */
  lemma UploadThenGenerate(p: Page, name: string, text: string)
    requires text != "" && !p.isLoading
    ensures var q := HandleFileUpload(p, File(name, Read(text)));
      && GenerateEnabled(q)
      && Submit(q).Sent?
      && EndsWith(Submit(q).prompt, "Here is the code:\n\n" + text)
  {
  }

  /** The prompt sent for the current page: the request naming the target
      platform and file type, which opens it, the selected locales joined by
      ", " as one run, and the input verbatim at the very end. */
  function Prompt(p: Page): (s: string)
    ensures "Translate the following code into " + p.selectedLanguage
      + " and generate a " + p.selectedFileType + " file." <= s
    ensures Contains(s, p.selectedLanguage) && Contains(s, p.selectedFileType)
    ensures Contains(s, Join(p.selectedLanguages, ", "))
    ensures EndsWith(s, "Here is the code:\n\n" + p.inputText)
  {
    var joined := Join(p.selectedLanguages, ", ");
    var tail := "." + CodeSection(p.inputText);
    var code := "Here is the code:\n\n" + p.inputText;
    Sandwich(Lead(p), joined, tail);
    EndsWithTail(Lead(p) + joined + tail, ".", " " + code);
    EndsWithTail(Lead(p) + joined + tail, " ", code);
    InLead(p, joined, tail, p.selectedLanguage);
    InLead(p, joined, tail, p.selectedFileType);
    Lead(p) + joined + tail
  }

  /** What the request contains is in the prompt built around it. */
  lemma InLead(p: Page, joined: string, tail: string, needle: string)
    requires Contains(Request(p), needle)
    ensures Contains(Lead(p) + joined + tail, needle)
  {
    ContainsBefore(Request(p), Listing(), needle);
    ContainsBefore(Lead(p), joined, needle);
    ContainsBefore(Lead(p) + joined, tail, needle);
  }

  /** The instructions up to the locale list: the request, then the fixed
      wording asking for one file per locale. */
  function Lead(p: Page): (r: string)
    ensures Request(p) <= r
  {
    Request(p) + Listing()
  }

  /** "Translate the following code into <platform> and generate a <type>
      file.", naming the platform and the file type. */
  function Request(p: Page): (r: string)
    ensures Contains(r, p.selectedLanguage) && Contains(r, p.selectedFileType)
  {
    var intro := "Translate the following code into ";
    var middle := " and generate a ";
    ContainsAt(p.selectedLanguage, p.selectedLanguage, 0);
    ContainsAfter(intro, p.selectedLanguage, p.selectedLanguage);
    ContainsBefore(intro + p.selectedLanguage, middle, p.selectedLanguage);
    ContainsBefore(intro + p.selectedLanguage + middle, p.selectedFileType, p.selectedLanguage);
    ContainsBefore(intro + p.selectedLanguage + middle + p.selectedFileType, " file.", p.selectedLanguage);
    ContainsAt(p.selectedFileType, p.selectedFileType, 0);
    ContainsAfter(intro + p.selectedLanguage + middle, p.selectedFileType, p.selectedFileType);
    ContainsBefore(intro + p.selectedLanguage + middle + p.selectedFileType, " file.", p.selectedFileType);
    intro + p.selectedLanguage + middle + p.selectedFileType + " file."
  }

  function Listing(): string
  {
    "Please give me each file separately, don't put any other information than the json file."
    + " Also, provide translations in the following languages: "
  }

  function CodeSection(inputText: string): string
  {
    " " + ("Here is the code:\n\n" + inputText)
  }

  /** The prompt names every selected locale. */
  lemma PromptNamesLocales(p: Page, k: int)
    requires 0 <= k < |p.selectedLanguages|
    ensures Contains(Prompt(p), p.selectedLanguages[k])
  {
    var joined := Join(p.selectedLanguages, ", ");
    var tail := "." + CodeSection(p.inputText);
    assert Prompt(p) == Lead(p) + joined + tail;
    JoinOccurs(p.selectedLanguages, ", ", k);
    var i :| OccursAt(joined, p.selectedLanguages[k], i);
    OccursWidened(Lead(p), joined, tail, p.selectedLanguages[k], i);
    ContainsAt(Prompt(p), p.selectedLanguages[k], |Lead(p)| + i);
  }

  /** The locale list of the prompt: two selected locales appear as
      "english, french", and no selection as the empty string. */
  lemma LocaleListExamples()
    ensures Join(["english", "french"], ", ") == "english, french"
    ensures Join([], ", ") == ""
  {
  }

  /** What a click on Generate produced before the service answers. */
  datatype Submission = Skipped(page: Page) | Sent(page: Page, prompt: string)

  /** The guard and entry of `generateFiles`: empty input only reports an
      error; otherwise loading starts and the error is cleared, while the
      previous files stay in place. */
  function Submit(p: Page): (s: Submission)
    ensures s.Sent? <==> p.inputText != ""
    ensures s.Skipped? ==> s.page == p.(error := "Please enter or upload code")
    ensures s.Sent? ==> s.page == p.(isLoading := true, error := "") && s.prompt == Prompt(p)
  {
    if p.inputText == "" then Skipped(p.(error := "Please enter or upload code"))
    else Sent(p.(isLoading := true, error := ""), Prompt(p))
  }

  /** The end of `generateFiles` once the service has answered: on success
      the list holds exactly the response; on failure a fixed error is shown
      and the list is left as it was. Loading is off either way. */
  function Complete(p: Page, r: Response): (q: Page)
    ensures !q.isLoading
    ensures r.Success? ==> q == p.(isLoading := false, generatedFiles := [r.text])
    ensures r.Failure? ==> q == p.(isLoading := false, error := "Failed to generate files")
  {
    match r
    case Success(text) => p.(generatedFiles := [text], isLoading := false)
    case Failure => p.(error := "Failed to generate files", isLoading := false)
  }

  /** A whole click on Generate, with `r` standing for the service's answer
      when a call is made. */
  function GenerateFiles(p: Page, r: Response): (q: Page)
    ensures p.inputText == "" ==> q == p.(error := "Please enter or upload code")
    ensures p.inputText != "" ==> !q.isLoading
    ensures p.inputText != "" && r.Success? ==> q.generatedFiles == [r.text] && q.error == ""
    ensures p.inputText != "" && r.Failure? ==>
      q.generatedFiles == p.generatedFiles && q.error == "Failed to generate files"
  {
    match Submit(p)
    case Skipped(q) => q
    case Sent(q, _) => Complete(q, r)
  }

  /** The Generate button is enabled (`disabled` is false) exactly when
      nothing is in flight and a click would call the service. */
  function GenerateEnabled(p: Page): (enabled: bool)
    ensures enabled <==> !p.isLoading && Submit(p).Sent?
  {
    !(p.isLoading || p.inputText == "")
  }

  /** An enabled button always leads to a call, and during the call the
      button is disabled. */
  lemma EnabledButtonSends(p: Page)
    requires GenerateEnabled(p)
    ensures Submit(p).Sent?
    ensures !GenerateEnabled(Submit(p).page)
  {
  }
}
