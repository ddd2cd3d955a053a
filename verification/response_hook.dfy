/**
  The patched `res.send` of the Express middleware: it classifies the
  response by its content-type header (falling back on the body's JavaScript
  type) and forwards the body unchanged to the original `send`.  Logging is
  not part of this model.
*/
module ResponseHook {
  import opened Wrappers
  import opened JsText

  /** The body handed to `send`, by JavaScript type; `null` is an object to
      `typeof`. */
  datatype Body = StringBody(text: string) | ObjectBody(json: string) | NullBody
                | NumberBody(n: int) | BooleanBody(b: bool) | UndefinedBody

  predicate IsStringBody(body: Body) {
    body.StringBody?
  }

  /** `typeof body === "object"`. */
  predicate IsObjectBody(body: Body) {
    body.ObjectBody? || body.NullBody?
  }

  const Unknown: string := "unknown"
  const Json: string := "JSON"
  const Text: string := "Text"
  const Xml: string := "XML"
  const Document: string := "Document (Word/PDF)"
  const Spreadsheet: string := "Spreadsheet/CSV"
  const Html: string := "HTML"
  const JsonGuessed: string := "JSON (guessed)"

  const Labels: set<string> := {Unknown, Json, Text, Xml, Document, Spreadsheet, Html, JsonGuessed}

  /** `res.getHeader("content-type")?.toString() || "unknown"`. */
  function ContentType(header: Option<string>): (r: string)
    ensures r != ""
    ensures header.None? ==> r == Unknown
    ensures header.Some? && header.value != "" ==> r == header.value
    ensures header == Some("") ==> r == Unknown
  {
    match header
    case None => Unknown
    case Some(h) => if h == "" then Unknown else h
  }

  predicate IncludesAny(contentType: string, needles: seq<string>) {
    exists k :: 0 <= k < |needles| && Includes(contentType, needles[k])
  }

  /** The header families, in the order the source tests them. */
  const Families: seq<(seq<string>, string)> := [
    (["application/json"], Json),
    (["text/plain"], Text),
    (["text/xml", "application/xml"], Xml),
    (["application/pdf", "application/msword",
      "application/vnd.openxmlformats-officedocument.wordprocessingml.document"], Document),
    (["application/vnd.ms-excel",
      "application/vnd.openxmlformats-officedocument.spreadsheetml.sheet", "text/csv"], Spreadsheet),
    (["text/html"], Html)
  ]

  /** The label of the first family with a substring in the header. */
  function FirstFamily(families: seq<(seq<string>, string)>, contentType: string): (r: Option<string>)
    ensures r.Some? ==> exists k :: 0 <= k < |families| && r.value == families[k].1
                          && IncludesAny(contentType, families[k].0)
                          && forall j :: 0 <= j < k ==> !IncludesAny(contentType, families[j].0)
    ensures r.None? <==> forall k :: 0 <= k < |families| ==> !IncludesAny(contentType, families[k].0)
  {
    if |families| == 0 then None
    else if IncludesAny(contentType, families[0].0) then Some(families[0].1)
    else
      var r := FirstFamily(families[1..], contentType);
      assert forall k :: 0 < k < |families| ==> families[k] == families[1..][k - 1];
      r
  }

  /** The body-type guess, taken only when the header was missing. */
  function BodyGuess(contentType: string, body: Body): (r: string)
    ensures r != Unknown ==> contentType == Unknown
  {
    if IsStringBody(body) && contentType == Unknown then Text
    else if IsObjectBody(body) && contentType == Unknown then JsonGuessed
    else Unknown
  }

  predicate JsonHeader(contentType: string) {
    Includes(contentType, "application/json")
  }

  predicate TextHeader(contentType: string) {
    Includes(contentType, "text/plain")
  }

  predicate XmlHeader(contentType: string) {
    Includes(contentType, "text/xml") || Includes(contentType, "application/xml")
  }

  predicate DocumentHeader(contentType: string) {
    || Includes(contentType, "application/pdf")
    || Includes(contentType, "application/msword")
    || Includes(contentType, "application/vnd.openxmlformats-officedocument.wordprocessingml.document")
  }

  predicate SpreadsheetHeader(contentType: string) {
    || Includes(contentType, "application/vnd.ms-excel")
    || Includes(contentType, "application/vnd.openxmlformats-officedocument.spreadsheetml.sheet")
    || Includes(contentType, "text/csv")
  }

  predicate HtmlHeader(contentType: string) {
    Includes(contentType, "text/html")
  }

  /** `detectedType` as the `if`/`else if` chain of the source computes it. */
  function DetectedType(contentType: string, body: Body): (r: string)
    ensures r in Labels
    ensures r == JsonGuessed ==> contentType == Unknown && IsObjectBody(body)
    ensures JsonHeader(contentType) ==> r == Json
  {
    if JsonHeader(contentType) then Json
    else if TextHeader(contentType) then Text
    else if XmlHeader(contentType) then Xml
    else if DocumentHeader(contentType) then Document
    else if SpreadsheetHeader(contentType) then Spreadsheet
    else if HtmlHeader(contentType) then Html
    else if IsStringBody(body) && contentType == Unknown then Text
    else if IsObjectBody(body) && contentType == Unknown then JsonGuessed
    else Unknown
  }

  lemma IncludesAnyOne(contentType: string, a: string)
    ensures IncludesAny(contentType, [a]) <==> Includes(contentType, a)
  {
    if Includes(contentType, a) { assert Includes(contentType, [a][0]); }
  }

  lemma IncludesAnyTwo(contentType: string, a: string, b: string)
    ensures IncludesAny(contentType, [a, b]) <==> Includes(contentType, a) || Includes(contentType, b)
  {
    if Includes(contentType, a) { assert Includes(contentType, [a, b][0]); }
    if Includes(contentType, b) { assert Includes(contentType, [a, b][1]); }
  }

  lemma IncludesAnyThree(contentType: string, a: string, b: string, c: string)
    ensures IncludesAny(contentType, [a, b, c]) <==>
            Includes(contentType, a) || Includes(contentType, b) || Includes(contentType, c)
  {
    if Includes(contentType, a) { assert Includes(contentType, [a, b, c][0]); }
    if Includes(contentType, b) { assert Includes(contentType, [a, b, c][1]); }
    if Includes(contentType, c) { assert Includes(contentType, [a, b, c][2]); }
  }

  /** Each row of the family table matches exactly when the corresponding
      test of the chain does. */
  lemma FamiliesAgree(contentType: string)
    ensures IncludesAny(contentType, Families[0].0) <==> JsonHeader(contentType)
    ensures IncludesAny(contentType, Families[1].0) <==> TextHeader(contentType)
    ensures IncludesAny(contentType, Families[2].0) <==> XmlHeader(contentType)
    ensures IncludesAny(contentType, Families[3].0) <==> DocumentHeader(contentType)
    ensures IncludesAny(contentType, Families[4].0) <==> SpreadsheetHeader(contentType)
    ensures IncludesAny(contentType, Families[5].0) <==> HtmlHeader(contentType)
  {
    IncludesAnyOne(contentType, "application/json");
    IncludesAnyOne(contentType, "text/plain");
    IncludesAnyTwo(contentType, "text/xml", "application/xml");
    IncludesAnyThree(contentType, "application/pdf", "application/msword",
                     "application/vnd.openxmlformats-officedocument.wordprocessingml.document");
    IncludesAnyThree(contentType, "application/vnd.ms-excel",
                     "application/vnd.openxmlformats-officedocument.spreadsheetml.sheet", "text/csv");
    IncludesAnyOne(contentType, "text/html");
  }

  /** The chain is a first-match classification over the family table, with
      the body guess as the fallback. */
  lemma DetectedTypeIsFirstMatch(contentType: string, body: Body)
    ensures DetectedType(contentType, body) ==
            (match FirstFamily(Families, contentType)
             case Some(name) => name
             case None => BodyGuess(contentType, body))
  {
    FamiliesAgree(contentType);
    var f := Families;
    assert f[1..][0] == f[1] && f[1..][1..] == f[2..];
    assert f[2..][0] == f[2] && f[2..][1..] == f[3..];
    assert f[3..][0] == f[3] && f[3..][1..] == f[4..];
    assert f[4..][0] == f[4] && f[4..][1..] == f[5..];
    assert f[5..][0] == f[5] && f[5..][1..] == [];
  }

  /** `text/csv` is a spreadsheet, not text. */
  lemma CsvIsSpreadsheet(body: Body)
    ensures DetectedType("text/csv", body) == Spreadsheet
  {
    assert OccursAt("text/csv", "text/csv", 0);
    assert !Includes("text/csv", "text/xml") by {
      forall i: nat | i <= 8 ensures !OccursAt("text/csv", "text/xml", i) {
        if i == 0 { assert "text/csv"[5] != "text/xml"[5]; }
      }
    }
  }

  lemma TooLongNotIncluded(s: string, sub: string)
    requires |s| < |sub|
    ensures !Includes(s, sub)
  {
  }

  /** A header shorter than every needle matches no family. */
  lemma ShortHeaderMatchesNothing(contentType: string)
    requires |contentType| < 8
    ensures !JsonHeader(contentType) && !TextHeader(contentType) && !XmlHeader(contentType)
    ensures !DocumentHeader(contentType) && !SpreadsheetHeader(contentType) && !HtmlHeader(contentType)
  {
    TooLongNotIncluded(contentType, "application/json");
    TooLongNotIncluded(contentType, "text/plain");
    TooLongNotIncluded(contentType, "text/xml");
    TooLongNotIncluded(contentType, "application/xml");
    TooLongNotIncluded(contentType, "application/pdf");
    TooLongNotIncluded(contentType, "application/msword");
    TooLongNotIncluded(contentType, "application/vnd.openxmlformats-officedocument.wordprocessingml.document");
    TooLongNotIncluded(contentType, "application/vnd.ms-excel");
    TooLongNotIncluded(contentType, "application/vnd.openxmlformats-officedocument.spreadsheetml.sheet");
    TooLongNotIncluded(contentType, "text/csv");
    TooLongNotIncluded(contentType, "text/html");
  }

  /** Without a content-type header only the body's type decides. */
  lemma MissingHeaderGuessesFromBody(body: Body)
    ensures DetectedType(Unknown, body) == BodyGuess(Unknown, body)
  {
    ShortHeaderMatchesNothing(Unknown);
  }

  /** What the patched `send` does: the classification, and the body handed on
      to the original `send`. */
  datatype Sent = Sent(detectedType: string, forwarded: Body)

  /** The patched `res.send(body)`: the body reaches the original `send`
      unchanged, whatever the classification. */
  function PatchedSend(header: Option<string>, body: Body): (r: Sent)
    ensures r.forwarded == body
    ensures r.detectedType == DetectedType(ContentType(header), body)
    ensures r.detectedType in Labels
    ensures header.None? && IsStringBody(body) ==> r.detectedType == Text
    ensures header.None? && IsObjectBody(body) ==> r.detectedType == JsonGuessed
  {
    MissingHeaderGuessesFromBody(body);
    Sent(DetectedType(ContentType(header), body), body)
  }
}
