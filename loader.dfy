/** `parse_message` (prepTM.py:31-43) and the shape of a parsed message.

    The two mail libraries are not modelled. A message is the record of what
    the rest of the pipeline reads from it: the parts (or attachments) in the
    order the library yields them, each with the table that `csv.DictReader`
    makes of its payload, and the HTML body if there is one. */
module MessageLoader {
  import opened Wrappers
  import opened Strings

  /** One row of `csv.DictReader`: column name to cell text. A cell that a
      short line leaves without a value (`None` in Python) is an absent key. */
  type Row = map<string, string>

  /** The rows of a CSV attachment, in file order. */
  type Table = seq<Row>

  /** A MIME part as `msg.walk()` yields it: `get_content_disposition()`
      (already lower-cased by the library), `get_filename()`, and the table
      read from its decoded payload. */
  datatype EmlPart = EmlPart(disposition: Option<string>, filename: Option<string>, table: Table)

  /** An internet message: every part reachable by walking the MIME tree, and
      the content of the body part `get_body(preferencelist=('html',))` picks. */
  datatype EmlMessage = EmlMessage(parts: seq<EmlPart>, htmlBody: Option<string>)

  /** An attachment of a container message: its long and short file names and
      the table read from its data. */
  datatype MsgAttachment = MsgAttachment(longFilename: Option<string>, shortFilename: Option<string>, table: Table)

  /** A container message: its attachments and its HTML body field. */
  datatype MsgMessage = MsgMessage(attachments: seq<MsgAttachment>, htmlBody: Option<string>)

  /** What `parse_message` returns. */
  datatype Message = Eml(eml: EmlMessage) | Msg(msg: MsgMessage)

  /** The two exceptions `parse_message` raises. */
  datatype ParseError =
    | UnsupportedFileType(ext: string)  // ValueError("Unsupported file type: " + ext)
    | MsgLibraryMissing                 // RuntimeError: extract_msg is not installed

  /** The last index of `c` in `s`, or -1 (`str.rfind`). */
  function RFind(s: string, c: char): (k: int)
    ensures -1 <= k < |s|
    ensures k >= 0 ==> s[k] == c
    ensures forall j :: k < j < |s| ==> s[j] != c
  {
    if s == [] then -1
    else if s[|s| - 1] == c then |s| - 1
    else RFind(s[..|s| - 1], c)
  }

  /** `os.path.splitext(path)[1]` with POSIX separators: from the last dot of
      the last path component to the end, unless that component has only
      dots before it (a hidden file such as `.eml` has no extension). */
  function Extension(path: string): (ext: string)
    ensures ext == [] || (ext[0] == '.' && EndsWith(path, ext))
    ensures forall j :: 0 <= j < |ext| ==> ext[j] != '/'
    ensures forall j :: 0 < j < |ext| ==> ext[j] != '.'
  {
    var sep := RFind(path, '/');
    var dot := RFind(path, '.');
    if dot > sep && exists k :: sep + 1 <= k < dot && path[k] != '.' then
      assert path[|path| - |path[dot..]|..] == path[dot..];
      path[dot..]
    else
      []
  }

  /** `parse_message`: dispatch on the lower-cased extension. The file reading
      itself is the libraries' work; `asEml` and `asMsg` stand for what each
      would make of the file. */
  function ParseMessage(path: string, msgLibraryInstalled: bool, asEml: EmlMessage, asMsg: MsgMessage): Result<Message, ParseError>
  {
    var ext := Lower(Extension(path));
    if ext == ".eml" then Success(Eml(asEml))
    else if ext == ".msg" then
      if !msgLibraryInstalled then Failure(MsgLibraryMissing) else Success(Msg(asMsg))
    else Failure(UnsupportedFileType(ext))
  }

  /** The three outcomes of `parse_message`, each exactly when its extension
      condition holds. */
  lemma ParseMessageOutcomes(path: string, msgLibraryInstalled: bool, asEml: EmlMessage, asMsg: MsgMessage)
    ensures var r := ParseMessage(path, msgLibraryInstalled, asEml, asMsg);
            var ext := Lower(Extension(path));
            && (r == Success(Eml(asEml)) <==> ext == ".eml")
            && (r == Success(Msg(asMsg)) <==> ext == ".msg" && msgLibraryInstalled)
            && (r == Failure(MsgLibraryMissing) <==> ext == ".msg" && !msgLibraryInstalled)
            && (r == Failure(UnsupportedFileType(ext)) <==> ext != ".eml" && ext != ".msg")
            && (r.Failure? && r.error.UnsupportedFileType? ==> r.error.ext == ext)
  {}

  /** The extension of `base.e`: a file name whose last component has a stem
      and whose suffix `e` holds neither a dot nor a slash. */
  lemma {:induction false} ExtensionOfName(base: string, e: string)
    requires base != [] && base[|base| - 1] != '/' && base[|base| - 1] != '.'
    requires forall j :: 0 <= j < |e| ==> e[j] != '.' && e[j] != '/'
    ensures Extension(base + "." + e) == "." + e
  {
    var path := base + "." + e;
    var dot := RFind(path, '.');
    var sep := RFind(path, '/');
    assert path[|base|] == '.';
    assert dot == |base|;
    assert sep < |base| - 1 by {
      assert path[|base| - 1] == base[|base| - 1];
    }
    assert path[|base| - 1] == base[|base| - 1];
    assert sep + 1 <= |base| - 1 < dot && path[|base| - 1] != '.';
    assert path[dot..] == "." + e;
  }

  /** Lower-casing on the ASCII letters is exactly the case-insensitive
      comparison with a lower-case target: a character lowers to a lower-case
      letter `l` exactly when it is `l` or its upper-case form. */
  lemma LowerCharIs(c: char, l: char)
    requires 'a' <= l <= 'z'
    ensures LowerChar(c) == l <==> c == l || c as int == l as int - 32
  {}

  /** The extension decides the path taken, whatever its case: `report.EML`
      is read as an internet message, `report.Msg` as a container message
      (or fails when the library is missing), anything else is refused. */
  lemma {:induction false} DispatchByFileName(base: string, e: string, msgLibraryInstalled: bool, asEml: EmlMessage, asMsg: MsgMessage)
    requires base != [] && base[|base| - 1] != '/' && base[|base| - 1] != '.'
    requires forall j :: 0 <= j < |e| ==> e[j] != '.' && e[j] != '/'
    ensures var r := ParseMessage(base + "." + e, msgLibraryInstalled, asEml, asMsg);
            && (Lower(e) == "eml" ==> r == Success(Eml(asEml)))
            && (Lower(e) == "msg" ==> r == (if msgLibraryInstalled then Success(Msg(asMsg)) else Failure(MsgLibraryMissing)))
            && (Lower(e) != "eml" && Lower(e) != "msg" ==> r == Failure(UnsupportedFileType("." + Lower(e))))
  {
    ExtensionOfName(base, e);
    assert Lower("." + e) == "." + Lower(e);
    assert ("." + Lower(e) == ".eml") <==> Lower(e) == "eml" by {
      if "." + Lower(e) == ".eml" { assert Lower(e) == ("." + Lower(e))[1..]; }
    }
    assert ("." + Lower(e) == ".msg") <==> Lower(e) == "msg" by {
      if "." + Lower(e) == ".msg" { assert Lower(e) == ("." + Lower(e))[1..]; }
    }
  }

  /** A path without an extension is refused with an empty extension in
      the message. */
  lemma NoExtensionIsUnsupported(path: string, msgLibraryInstalled: bool, asEml: EmlMessage, asMsg: MsgMessage)
    requires Extension(path) == []
    ensures ParseMessage(path, msgLibraryInstalled, asEml, asMsg) == Failure(UnsupportedFileType(""))
  {
    assert Lower("") == "";
  }

  /** A path has no extension exactly when everything in its last component
      before the last dot is a dot: there is no dot at all, or the name is
      hidden (`.eml`, `...eml`). */
  lemma NoExtensionIff(path: string)
    ensures Extension(path) == [] <==>
              forall j :: RFind(path, '/') < j < RFind(path, '.') ==> path[j] == '.'
  {
    var sep := RFind(path, '/');
    var dot := RFind(path, '.');
    if Extension(path) != [] {
      var k :| sep + 1 <= k < dot && path[k] != '.';
      assert !(path[k] == '.');
    }
  }

  /** A hidden file such as `.eml`, alone or inside a directory, has no
      extension and so is refused. */
  lemma {:induction false} HiddenFileIsUnsupported(dir: string, e: string, msgLibraryInstalled: bool, asEml: EmlMessage, asMsg: MsgMessage)
    requires dir == [] || dir[|dir| - 1] == '/'
    requires forall j :: 0 <= j < |e| ==> e[j] != '.' && e[j] != '/'
    ensures ParseMessage(dir + "." + e, msgLibraryInstalled, asEml, asMsg) == Failure(UnsupportedFileType(""))
  {
    var path := dir + "." + e;
    var dot := RFind(path, '.');
    var sep := RFind(path, '/');
    assert path[|dir|] == '.';
    assert dot == |dir| by {
      forall j | |dir| < j < |path| ensures path[j] != '.' {
        assert path[j] == e[j - |dir| - 1];
      }
    }
    if dir != [] {
      assert path[|dir| - 1] == '/';
    }
    assert sep == |dir| - 1 by {
      if dir != [] {
        assert path[|dir| - 1] == '/';
      }
      forall j | |dir| - 1 < j < |path| ensures path[j] != '/' {
        if j > |dir| {
          assert path[j] == e[j - |dir| - 1];
        }
      }
    }
    NoExtensionIff(path);
    NoExtensionIsUnsupported(path, msgLibraryInstalled, asEml, asMsg);
  }

  /** An upper-case `.EML` suffix selects the internet-message path. */
  lemma UpperCaseEmlExample(base: string, asEml: EmlMessage, asMsg: MsgMessage, installed: bool)
    requires base != [] && base[|base| - 1] != '/' && base[|base| - 1] != '.'
    ensures ParseMessage(base + ".EML", installed, asEml, asMsg) == Success(Eml(asEml))
  {
    assert base + ".EML" == base + "." + "EML";
    assert Lower("EML") == "eml";
    DispatchByFileName(base, "EML", installed, asEml, asMsg);
  }

  /** A `.txt` file is refused with a ValueError naming its extension. */
  lemma TextFileExample(base: string, asEml: EmlMessage, asMsg: MsgMessage, installed: bool)
    requires base != [] && base[|base| - 1] != '/' && base[|base| - 1] != '.'
    ensures ParseMessage(base + ".txt", installed, asEml, asMsg) == Failure(UnsupportedFileType(".txt"))
  {
    var e := "txt";
    assert base + ".txt" == base + "." + e;
    assert Lower(e) == e;
    assert e != "eml" && e != "msg" by {
      assert e[0] == 't';
    }
    assert "." + Lower(e) == ".txt";
    DispatchByFileName(base, e, installed, asEml, asMsg);
  }

  /** A `.msg` file without the container library is a RuntimeError. */
  lemma MsgWithoutLibraryExample(base: string, asEml: EmlMessage, asMsg: MsgMessage)
    requires base != [] && base[|base| - 1] != '/' && base[|base| - 1] != '.'
    ensures ParseMessage(base + ".msg", false, asEml, asMsg) == Failure(MsgLibraryMissing)
  {
    assert base + ".msg" == base + "." + "msg";
    assert Lower("msg") == "msg";
    DispatchByFileName(base, "msg", false, asEml, asMsg);
  }
}
