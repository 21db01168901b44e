/** `extract_som_entries` (prepTM.py:107-111): parse, pick the CSV table,
    collect the URLs, format. */
module Pipeline {
  import opened Wrappers
  import opened Strings
  import opened MessageLoader
  import opened AttachmentExtractor
  import opened UrlExtractor
  import opened ValueCleaner
  import opened RowFormatter

  /** What `extract_som_entries` returns, or the error `parse_message`
      raises. */
  function PipelineSpec(path: string, msgLibraryInstalled: bool, asEml: EmlMessage, asMsg: MsgMessage,
                        descPrefix: Option<string>, today: string): Result<seq<SomEntry>, ParseError>
  {
    match ParseMessage(path, msgLibraryInstalled, asEml, asMsg)
    case Failure(e) => Failure(e)
    case Success(msg) => Success(FormatSpec(SelectedTable(msg), ExtractUrlsFromMessage(msg), descPrefix, today))
  }

  /** `extract_som_entries`. `today` stands for `date.today().isoformat()`. */
  method ExtractSomEntries(path: string, msgLibraryInstalled: bool, asEml: EmlMessage, asMsg: MsgMessage,
                           descPrefix: Option<string>, today: string)
    returns (r: Result<seq<SomEntry>, ParseError>)
    ensures r == PipelineSpec(path, msgLibraryInstalled, asEml, asMsg, descPrefix, today)
  {
    var parsed := ParseMessage(path, msgLibraryInstalled, asEml, asMsg);
    if parsed.Failure? {
      return Failure(parsed.error);
    }
    var msg := parsed.value;
    var csvRows := ExtractCsvFromMessage(msg);
    var urls := ExtractUrlsFromMessage(msg);
    var output := FormatSomEntries(csvRows, urls, descPrefix, today);
    return Success(output);
  }

  /** The pipeline fails exactly when parsing fails, with the same error;
      a file that is neither `.eml` nor `.msg` never yields rows. */
  lemma PipelineErrors(path: string, msgLibraryInstalled: bool, asEml: EmlMessage, asMsg: MsgMessage,
                       descPrefix: Option<string>, today: string)
    ensures var r := PipelineSpec(path, msgLibraryInstalled, asEml, asMsg, descPrefix, today);
            var p := ParseMessage(path, msgLibraryInstalled, asEml, asMsg);
            var ext := Lower(Extension(path));
            && (r.Failure? <==> p.Failure?)
            && (r.Failure? ==> r.error == p.error)
            && (ext != ".eml" && ext != ".msg" ==> r == Failure(UnsupportedFileType(ext)))
            && (ext == ".msg" && !msgLibraryInstalled ==> r == Failure(MsgLibraryMissing))
  {
    ParseMessageOutcomes(path, msgLibraryInstalled, asEml, asMsg);
  }

  /** On success, each kind of row carries the cleaned values of the chosen
      CSV table's column (IPs twice), and the URL rows carry the cleaned
      URLs found in the HTML body. */
  lemma PipelineRows(path: string, msgLibraryInstalled: bool, asEml: EmlMessage, asMsg: MsgMessage,
                     descPrefix: Option<string>, today: string)
    requires PipelineSpec(path, msgLibraryInstalled, asEml, asMsg, descPrefix, today).Success?
    ensures var msg := ParseMessage(path, msgLibraryInstalled, asEml, asMsg).value;
            var rows := SelectedTable(msg);
            var out := PipelineSpec(path, msgLibraryInstalled, asEml, asMsg, descPrefix, today).value;
            && ObjectsOfKind(out, "domain") == CleanValues(ColumnValues(rows, "domain"))
            && ObjectsOfKind(out, "url") == CleanValues(ExtractUrlsFromMessage(msg))
            && ObjectsOfKind(out, "ip") == CleanValues(ColumnValues(rows, "IP")) + CleanValues(ColumnValues(rows, "IP"))
            && ObjectsOfKind(out, "sha1") == CleanValues(ColumnValues(rows, "sha1"))
            && ObjectsOfKind(out, "sha256") == CleanValues(ColumnValues(rows, "sha256"))
            && ObjectsOfKind(out, "email_sender") == CleanValues(ColumnValues(rows, "email_sender"))
  {
    var msg := ParseMessage(path, msgLibraryInstalled, asEml, asMsg).value;
    FormatObjectsByKind(SelectedTable(msg), ExtractUrlsFromMessage(msg), descPrefix, today);
  }

  /** An `.eml` message with no CSV attachment and no HTML body yields an
      empty list, not an error. */
  lemma BareEmlGivesNoRows(path: string, msgLibraryInstalled: bool, asEml: EmlMessage, asMsg: MsgMessage,
                           descPrefix: Option<string>, today: string)
    requires Lower(Extension(path)) == ".eml"
    requires forall j :: 0 <= j < |asEml.parts| ==> !IsCsvPart(asEml.parts[j])
    requires asEml.htmlBody.None?
    ensures PipelineSpec(path, msgLibraryInstalled, asEml, asMsg, descPrefix, today) == Success([])
  {
    var msg := Eml(asEml);
    NoCsvPartNoRows(asEml.parts);
    NoBodyNoUrls(msg);
    FormatEmptyIff(SelectedTable(msg), ExtractUrlsFromMessage(msg), descPrefix, today);
  }
}
