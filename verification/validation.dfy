/** The shallow syntax check run on a translation file before submission
    (src/pages/LangueToCode.js, `validateInput`): JSON goes through the
    platform's JSON parser, XML must contain something shaped like a tag,
    and every other format passes unchecked. */
module Validation {
  import opened Strings
  import opened Formats

  /** The page's `validationStatus`: `null` before any check, then the
      outcome of the latest one. */
  datatype Status = Unchecked | Valid | Invalid

  /** `JSON.parse` seen from outside: whether it accepts a text and, when it
      throws, the message of the error it throws. */
  datatype JsonParser = JsonParser(accepts: string -> bool, message: string -> string)

  /** The outcome of one check: accepted, or rejected with the thrown
      error's message. */
  datatype Verdict = Accepted | Rejected(message: string)

  /** The match `<[^>]+>` at `[i..j]`: a `<` at `i`, a `>` at `j`, and at
      least one character between them, none of which is `>`. */
  predicate TagAt(text: string, i: int, j: int)
  {
    0 <= i && i + 1 < j < |text| && text[i] == '<' && text[j] == '>'
    && forall k :: i < k < j ==> text[k] != '>'
  }

  /** `text.match(/<[^>]+>/)` is not null. */
  predicate HasTag(text: string)
  {
    exists i, j | 0 <= i < j < |text| :: TagAt(text, i, j)
  }

  /** A `<` at `i` that is followed by a character other than `>`. */
  predicate Opener(text: string, i: int)
  {
    0 <= i && i + 1 < |text| && text[i] == '<' && text[i + 1] != '>'
  }

  /** A tag exists exactly when some opener is followed, anywhere later, by
      a `>`: the characters in between never matter, since the first `>`
      after the opener closes a match. */
  lemma HasTagIff(text: string)
    ensures HasTag(text) <==> exists i, j :: Opener(text, i) && i + 2 <= j < |text| && text[j] == '>'
  {
    if HasTag(text) {
      var i, j :| 0 <= i < j < |text| && TagAt(text, i, j);
      assert text[i + 1] != '>';
      assert Opener(text, i) && i + 2 <= j < |text| && text[j] == '>';
    }
    if i, j :| Opener(text, i) && i + 2 <= j < |text| && text[j] == '>' {
      var j' := FirstClose(text, i + 1, j);
      assert TagAt(text, i, j');
    }
  }

  /** The first `>` at or after `from`, given that there is one at `j`. */
  function FirstClose(text: string, from: int, j: int): (c: int)
    requires 0 <= from <= j < |text| && text[j] == '>'
    ensures from <= c <= j && text[c] == '>'
    ensures forall k :: from <= k < c ==> text[k] != '>'
    decreases j - from
  {
    if text[from] == '>' then from else FirstClose(text, from + 1, j)
  }

  /** States of a left-to-right scan for `<[^>]+>`. */
  datatype ScanState = Outside | AfterOpen | InTag

  /** One pass over the text, deciding whether it contains a tag: `AfterOpen`
      means the previous character was a `<` that may start a tag, `InTag`
      means a tag has been opened and only needs a `>`. */
  method ScanForTag(text: string) returns (found: bool)
    ensures found <==> HasTag(text)
  {
    var state := Outside;
    ghost var start := 0;
    var k := 0;
    while k < |text|
      invariant 0 <= k <= |text|
      invariant forall i, j :: Opener(text, i) && i + 2 <= j < k ==> text[j] != '>'
      invariant state != InTag ==> forall i :: 0 <= i && i + 1 < k ==> !Opener(text, i)
      invariant state == Outside ==> k == 0 || text[k - 1] != '<'
      invariant state == AfterOpen ==> 0 < k && text[k - 1] == '<'
      invariant state == InTag ==> Opener(text, start) && start + 2 <= k
    {
      var c := text[k];
      match state {
      case Outside =>
        if c == '<' {
          state := AfterOpen;
        }
      case AfterOpen =>
        if c == '>' {
          state := Outside;
        } else {
          state := InTag;
          start := k - 1;
        }
      case InTag =>
        if c == '>' {
          HasTagIff(text);
          return true;
        }
      }
      k := k + 1;
    }
    HasTagIff(text);
    return false;
  }

  /** The tag check on examples: a `<` may sit inside a tag, but an empty
      `<>` is no tag. */
  lemma HasTagExamples()
    ensures HasTag("<<>")
    ensures !HasTag("<>")
    ensures HasTag("<a>")
    ensures !HasTag("a>b<")
  {
    assert TagAt("<<>", 0, 2);
    assert TagAt("<a>", 0, 2);
    HasTagIff("<>");
    HasTagIff("a>b<");
  }

  /** The check `validateInput` performs for `format`, with the messages its
      thrown errors carry. */
  function Check(text: string, format: Format, json: JsonParser): (v: Verdict)
    ensures format == Json ==> (v.Accepted? <==> json.accepts(text))
    ensures format == Json && v.Rejected? ==> v.message == json.message(text)
    ensures format == Xml ==> (v.Accepted? <==> HasTag(text))
    ensures format == Xml && v.Rejected? ==> v.message == "Invalid XML"
    ensures format != Json && format != Xml ==> v == Accepted
  {
    match format
    case Json => if json.accepts(text) then Accepted else Rejected(json.message(text))
    case Xml => if HasTag(text) then Accepted else Rejected("Invalid XML")
    case _ => Accepted
  }

  /** The error string shown after a rejection:
      "Invalid <FORMAT> format: <message>". */
  function ErrorMessage(format: Format, message: string): (r: string)
    ensures "Invalid " <= r
    ensures |r| == |"Invalid "| + |format.Value()| + |" format: "| + |message|
    ensures forall k :: 0 <= k < |format.Value()| ==>
      r[|"Invalid "| + k] == UpperChar(format.Value()[k])
    ensures EndsWith(r, " format: " + message)
  {
    var u := ToUpper(format.Value());
    var r := "Invalid " + u + " format: " + message;
    assert forall k :: 0 <= k < |u| ==> r[|"Invalid "| + k] == u[k];
    assert r[|"Invalid " + u|..] == " format: " + message;
    r
  }

  /** The error for an XML rejection names the format in capitals. */
  lemma XmlErrorMessage(message: string)
    ensures ErrorMessage(Xml, message) == "Invalid XML format: " + message
  {
    var u := ToUpper(Xml.Value());
    assert u[0] == 'X' && u[1] == 'M' && u[2] == 'L';
    assert u == "XML";
    assert "Invalid " + u + " format: " == "Invalid XML format: ";
  }

  /** The full error shown for XML input without a tag. */
  lemma UntaggedXmlMessage()
    ensures ErrorMessage(Xml, "Invalid XML") == "Invalid XML format: Invalid XML"
  {
    XmlErrorMessage("Invalid XML");
    assert "Invalid XML format: " + "Invalid XML" == "Invalid XML format: Invalid XML";
  }

  /** Only JSON and XML texts can be rejected; YAML, properties and iOS
      strings files pass whatever they hold. */
  lemma OnlyJsonAndXmlRejected(text: string, format: Format, json: JsonParser)
    requires Check(text, format, json).Rejected?
    ensures format == Json || format == Xml
  {
  }
}
