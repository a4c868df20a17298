/** The translation-file formats of the "Translation to Code" page and the
    detection of a format from an uploaded file's name
    (src/pages/LangueToCode.js, `sourceFormats` and `handleFileUpload`). */
module Formats {
  import opened Seqs
  import opened Strings

  /** The closed set of source formats; `Value` is the table's `value` key,
      which is also what the page keeps as `sourceLanguage`. */
  datatype Format = Json | Xml | Yaml | Properties | IosStrings
  {
    function Value(): string
    {
      match this
      case Json => "json"
      case Xml => "xml"
      case Yaml => "yaml"
      case Properties => "properties"
      case IosStrings => "strings"
    }

    /** The format's row in `Table`. */
    function Index(): (i: nat)
      ensures i < |Table| && Table[i].format == this
    {
      match this
      case Json => 0
      case Xml => 1
      case Yaml => 2
      case Properties => 3
      case IosStrings => 4
    }
  }

  /** One row of the format table; `extension` is a display string that may
      list several extensions. */
  datatype Entry = Entry(format: Format, caption: string, extension: string)

  const Table: seq<Entry> := [
    Entry(Json, "JSON", ".json"),
    Entry(Xml, "XML", ".xml"),
    Entry(Yaml, "YAML", ".yaml, .yml"),
    Entry(Properties, "Properties", ".properties"),
    Entry(IosStrings, "iOS Strings", ".strings")
  ]

  /** `name.split('.').pop().toLowerCase()`: the lower-cased text after the
      last dot of the file name, or the whole name when it has no dot. */
  function Extension(name: string): (ext: string)
    ensures |ext| <= |name|
    ensures '.' !in name[|name| - |ext|..]
    ensures ext == ToLower(name[|name| - |ext|..])
    ensures |ext| == |name| || name[|name| - |ext| - 1] == '.'
  {
    LastPiece(name, '.');
    ToLower(Last(Split(name, '.')))
  }

  /** The table row's extension string contains `ext` (`f.extension.includes(ext)`). */
  predicate Lists(e: Entry, ext: string)
  {
    Contains(e.extension, ext)
  }

  /** Row `i` is the first row of the table listing `ext`. */
  ghost predicate FirstListing(i: int, ext: string)
  {
    0 <= i < |Table| && Lists(Table[i], ext) && forall j :: 0 <= j < i ==> !Lists(Table[j], ext)
  }

  /** `sourceFormats.find(f => f.extension.includes(ext))`: the format of the
      FIRST row whose extension string contains `ext` as a substring. */
  function Detect(ext: string): (r: Option<Format>)
    ensures r.None? <==> forall j :: 0 <= j < |Table| ==> !Lists(Table[j], ext)
    ensures r.Some? ==> exists i :: FirstListing(i, ext) && Table[i].format == r.value
  {
    match FindIndex(Table, e => Lists(e, ext))
    case None => None
    case Some(i) => Some(Table[i].format)
  }

  /** A row listing `ext` below rows that do not decides the detection. */
  lemma DetectByRow(ext: string, k: int)
    requires 0 <= k < |Table| && Lists(Table[k], ext)
    requires forall j :: 0 <= j < k ==> !Lists(Table[j], ext)
    ensures Detect(ext) == Some(Table[k].format)
  {
    assert forall i :: FirstListing(i, ext) ==> i == k;
  }

  /** No row listing `ext` means no detection. */
  lemma DetectNoRow(ext: string)
    requires forall j :: 0 <= j < |Table| ==> !Lists(Table[j], ext)
    ensures Detect(ext) == None
  {
  }

  /** Detection witnessed by an occurrence of `ext` in row `k` at `pos`, and,
      for every earlier row `j`, a character `ext[misses[j]]` that row lacks. */
  lemma DetectWitnessed(ext: string, k: int, pos: int, misses: seq<int>)
    requires 0 <= k < |Table| && |misses| == k
    requires OccursAt(Table[k].extension, ext, pos)
    requires forall j :: 0 <= j < k ==> 0 <= misses[j] < |ext| && ext[misses[j]] !in Table[j].extension
    ensures Detect(ext) == Some(Table[k].format)
  {
    ContainsAt(Table[k].extension, ext, pos);
    forall j | 0 <= j < k
      ensures !Lists(Table[j], ext)
    {
      MissingChar(Table[j].extension, ext, misses[j]);
    }
    DetectByRow(ext, k);
  }

  /** No detection, witnessed for every row `j` by a character
      `ext[misses[j]]` that the row lacks. */
  lemma DetectNoneWitnessed(ext: string, misses: seq<int>)
    requires |misses| == |Table|
    requires forall j :: 0 <= j < |Table| ==> 0 <= misses[j] < |ext| && ext[misses[j]] !in Table[j].extension
    ensures Detect(ext) == None
  {
    forall j | 0 <= j < |Table|
      ensures !Lists(Table[j], ext)
    {
      MissingChar(Table[j].extension, ext, misses[j]);
    }
    DetectNoRow(ext);
  }

  // Substring matching makes short or partial extensions match a row.

  /** `yml` is listed by the YAML row (".yaml, .yml"). */
  lemma DetectYml()
    ensures Detect("yml") == Some(Yaml)
  {
    DetectWitnessed("yml", 2, 8, [0, 0]);
  }

  /** `js` is a substring of ".json". */
  lemma DetectJs()
    ensures Detect("js") == Some(Json)
  {
    DetectWitnessed("js", 0, 1, []);
  }

  /** A name ending in a dot has the empty extension, which every row lists;
      the first row wins. */
  lemma DetectEmptyExtension()
    ensures Detect("") == Some(Json)
  {
    DetectWitnessed("", 0, 0, []);
  }

  /** `ml` is a substring of ".xml" and not of ".json". */
  lemma DetectMl()
    ensures Detect("ml") == Some(Xml)
  {
    DetectWitnessed("ml", 1, 2, [0]);
  }

  /** An extension no row lists, such as `txt`, detects nothing. */
  lemma DetectUnlisted()
    ensures Detect("txt") == None
  {
    DetectNoneWitnessed("txt", [0, 0, 0, 1, 1]);
  }

  /** Each format's own value is detected as that format. */
  lemma DetectOwnValue(f: Format)
    ensures Detect(f.Value()) == Some(f)
  {
    match f
    case Json => DetectWitnessed("json", 0, 1, []);
    case Xml => DetectWitnessed("xml", 1, 1, [0]);
    case Yaml => DetectWitnessed("yaml", 2, 1, [0, 0]);
    case Properties => DetectProperties();
    case IosStrings => DetectStrings();
  }

  /** `properties` occurs only in the fourth row. */
  lemma DetectProperties()
    ensures Detect("properties") == Some(Properties)
  {
    DetectWitnessed("properties", 3, 1, [0, 0, 0]);
  }

  /** `strings` occurs only in the last row. */
  lemma DetectStrings()
    ensures Detect("strings") == Some(IosStrings)
  {
    DetectWitnessed("strings", 4, 1, [2, 0, 0, 5]);
  }

  /** The extension of `<stem>.<e>`, for a dot-free `e`, is `e` lower-cased,
      whatever dots the stem holds. */
  lemma ExtensionAfterLastDot(stem: string, e: string)
    requires '.' !in e
    ensures Extension(stem + "." + e) == ToLower(e)
  {
    LastPieceAfter(stem, '.', e);
  }

  /** A file name ending in a dot has the empty extension, which the JSON row
      lists first. */
  lemma TrailingDotDetectsJson(stem: string)
    ensures Detect(Extension(stem + ".")) == Some(Json)
  {
    ExtensionAfterLastDot(stem, "");
    assert stem + "." + "" == stem + ".";
    DetectEmptyExtension();
  }

  /** A file named `<stem>.<value>` is detected as the format with that value,
      whatever the stem. */
  lemma DetectFileNamedAfter(stem: string, f: Format)
    ensures Detect(Extension(stem + "." + f.Value())) == Some(f)
  {
    ExtensionAfterLastDot(stem, f.Value());
    ToLowerOfLower(f.Value());
    DetectOwnValue(f);
  }
}
