/** `extract_csv_from_message` (prepTM.py:46-64): the table of the first CSV
    attachment. */
module AttachmentExtractor {
  import opened Wrappers
  import opened Strings
  import opened MessageLoader

  /** `fn.lower().endswith('.csv')`. */
  predicate IsCsvName(fn: string) {
    EndsWith(Lower(fn), ".csv")
  }

  /** The file name the `.eml` loop tests: `part.get_filename() or ""`. */
  function PartFileName(p: EmlPart): string {
    OrElse(p.filename, "")
  }

  /** An internet-message part is taken when it is an attachment and its
      file name ends in `.csv`. */
  predicate IsCsvPart(p: EmlPart) {
    p.disposition == Some("attachment") && IsCsvName(PartFileName(p))
  }

  /** The file name the `.msg` loop tests:
      `att.longFilename or att.shortFilename or ""`. */
  function AttachmentFileName(a: MsgAttachment): string {
    OrElse(a.longFilename, OrElse(a.shortFilename, ""))
  }

  /** A container attachment is taken when its file name ends in `.csv`. */
  predicate IsCsvAttachment(a: MsgAttachment) {
    IsCsvName(AttachmentFileName(a))
  }

  /** The table of the first CSV part, or no rows. */
  function FirstCsvPartTable(parts: seq<EmlPart>): Table {
    if parts == [] then []
    else if IsCsvPart(parts[0]) then parts[0].table
    else FirstCsvPartTable(parts[1..])
  }

  /** The table of the first CSV attachment, or no rows. */
  function FirstCsvAttachmentTable(atts: seq<MsgAttachment>): Table {
    if atts == [] then []
    else if IsCsvAttachment(atts[0]) then atts[0].table
    else FirstCsvAttachmentTable(atts[1..])
  }

  /** What `extract_csv_from_message` returns for a parsed message. */
  function SelectedTable(msg: Message): Table {
    match msg
    case Eml(m) => FirstCsvPartTable(m.parts)
    case Msg(m) => FirstCsvAttachmentTable(m.attachments)
  }

  /** The two loops of `extract_csv_from_message`, each returning at the
      first match. */
  method ExtractCsvFromMessage(msg: Message) returns (table: Table)
    ensures table == SelectedTable(msg)
  {
    match msg
    case Eml(m) =>
      var parts := m.parts;
      for i := 0 to |parts|
        invariant FirstCsvPartTable(parts[i..]) == FirstCsvPartTable(parts)
      {
        var fn := OrElse(parts[i].filename, "");
        if parts[i].disposition == Some("attachment") && EndsWith(Lower(fn), ".csv") {
          return parts[i].table;
        }
        assert parts[i..][1..] == parts[i + 1..];
      }
      return [];
    case Msg(m) =>
      var atts := m.attachments;
      for i := 0 to |atts|
        invariant FirstCsvAttachmentTable(atts[i..]) == FirstCsvAttachmentTable(atts)
      {
        var fn := OrElse(atts[i].longFilename, OrElse(atts[i].shortFilename, ""));
        if EndsWith(Lower(fn), ".csv") {
          return atts[i].table;
        }
        assert atts[i..][1..] == atts[i + 1..];
      }
      return [];
  }

  /** First match wins: the table is that of the earliest CSV part. */
  lemma {:induction false} FirstCsvPartWins(parts: seq<EmlPart>, k: nat)
    requires k < |parts| && IsCsvPart(parts[k])
    requires forall j :: 0 <= j < k ==> !IsCsvPart(parts[j])
    ensures FirstCsvPartTable(parts) == parts[k].table
  {
    if k > 0 {
      FirstCsvPartWins(parts[1..], k - 1);
    }
  }

  /** No CSV part, no rows; and any rows returned are the table of some CSV
      part. */
  lemma {:induction false} NoCsvPartNoRows(parts: seq<EmlPart>)
    ensures (forall j :: 0 <= j < |parts| ==> !IsCsvPart(parts[j])) ==> FirstCsvPartTable(parts) == []
    ensures FirstCsvPartTable(parts) != [] ==> exists j :: 0 <= j < |parts| && IsCsvPart(parts[j]) && parts[j].table == FirstCsvPartTable(parts)
  {
    if parts != [] {
      NoCsvPartNoRows(parts[1..]);
      if FirstCsvPartTable(parts) != [] && !IsCsvPart(parts[0]) {
        var j :| 0 <= j < |parts[1..]| && IsCsvPart(parts[1..][j]) && parts[1..][j].table == FirstCsvPartTable(parts[1..]);
        assert parts[j + 1] == parts[1..][j];
      }
    }
  }

  /** Parts after a CSV part are ignored, whatever they hold. */
  lemma {:induction false} LaterPartsIgnored(parts: seq<EmlPart>, later: seq<EmlPart>)
    requires exists j :: 0 <= j < |parts| && IsCsvPart(parts[j])
    ensures FirstCsvPartTable(parts + later) == FirstCsvPartTable(parts)
  {
    if !IsCsvPart(parts[0]) {
      var j :| 0 <= j < |parts| && IsCsvPart(parts[j]);
      assert parts[1..][j - 1] == parts[j];
      assert (parts + later)[1..] == parts[1..] + later;
      LaterPartsIgnored(parts[1..], later);
    }
  }

  /** First match wins among container attachments too. */
  lemma {:induction false} FirstCsvAttachmentWins(atts: seq<MsgAttachment>, k: nat)
    requires k < |atts| && IsCsvAttachment(atts[k])
    requires forall j :: 0 <= j < k ==> !IsCsvAttachment(atts[j])
    ensures FirstCsvAttachmentTable(atts) == atts[k].table
  {
    if k > 0 {
      FirstCsvAttachmentWins(atts[1..], k - 1);
    }
  }

  /** No CSV attachment, no rows. */
  lemma {:induction false} NoCsvAttachmentNoRows(atts: seq<MsgAttachment>)
    requires forall j :: 0 <= j < |atts| ==> !IsCsvAttachment(atts[j])
    ensures FirstCsvAttachmentTable(atts) == []
  {
    if atts != [] {
      NoCsvAttachmentNoRows(atts[1..]);
    }
  }

  /** The `.csv` test ignores case: a name matches exactly when its last four
      characters are `.`, `c` or `C`, `s` or `S`, `v` or `V`. */
  lemma IsCsvNameCaseInsensitive(fn: string)
    ensures IsCsvName(fn) <==>
      && |fn| >= 4
      && fn[|fn| - 4] == '.'
      && fn[|fn| - 3] in "cC"
      && fn[|fn| - 2] in "sS"
      && fn[|fn| - 1] in "vV"
  {
    var n := |fn|;
    if n >= 4 {
      var tail := Lower(fn)[n - 4..];
      assert tail == [LowerChar(fn[n - 4]), LowerChar(fn[n - 3]), LowerChar(fn[n - 2]), LowerChar(fn[n - 1])];
      LowerCharIs(fn[n - 3], 'c');
      LowerCharIs(fn[n - 2], 's');
      LowerCharIs(fn[n - 1], 'v');
    }
  }

  /** The name tried for a container attachment: its long name when that is
      present and non-empty, otherwise its short name; an attachment with
      neither never matches. */
  lemma AttachmentNameRule(a: MsgAttachment)
    ensures a.longFilename.Some? && a.longFilename.value != "" ==>
              (IsCsvAttachment(a) <==> IsCsvName(a.longFilename.value))
    ensures !(a.longFilename.Some? && a.longFilename.value != "") && a.shortFilename.Some? ==>
              (IsCsvAttachment(a) <==> IsCsvName(a.shortFilename.value))
    ensures !(a.longFilename.Some? && a.longFilename.value != "") && a.shortFilename.None? ==>
              !IsCsvAttachment(a)
  {}

  /** A part that is not an attachment, or that has no file name, is never
      taken. */
  lemma PartNeedsAttachmentAndName(p: EmlPart)
    ensures p.disposition != Some("attachment") ==> !IsCsvPart(p)
    ensures p.filename.None? ==> !IsCsvPart(p)
    ensures p.disposition == Some("attachment") && p.filename.Some? ==>
              (IsCsvPart(p) <==> IsCsvName(p.filename.value))
  {}
}
