/** The job screens' backup-file modals. `FileModal` shows the backup's
    XML file and its archive in an accordion with download buttons;
    `Filemodal` shows the two files side by side, or a waiting message.
    Both ask for the files with the job id read by `parseInt`, and both
    unwrap the stored content from its `b'...'` form. */
module FileModals {
  import opened Js

  const Unlocatable := "Unable to locate the specified resource"
  const WaitMessage := "Please Wait sometime"
  /** The id of the accordion item holding the XML file. */
  const XmlToggle := "def-list-toggle2"

  // ---------------------------------------------------------- requests

  /** `parseInt(job_id)`; `None` is NaN. */
  function JobId(jobId: Json): Option<int> {
    match ToText(jobId)
    case None => None
    case Some(t) => ParseInt(t)
  }

  /** A request body: the address, the job id, and for the archive the
      file name. */
  datatype Request = Request(ipAddress: Json, jobId: Option<int>, name: Option<Json>)

  /** The body of `get_log` and `get_xml`. */
  function FilesRequest(ipAddress: Json, jobId: Json): Request {
    Request(ipAddress, JobId(jobId), None)
  }

  /** The body of `download_file`: the archive is named by the second
      file. */
  function ArchiveRequest(ipAddress: Json, jobId: Json, xml1: XmlFile): Request {
    Request(ipAddress, JobId(jobId), Some(xml1.fileName))
  }

  /** A job id given as a number or as its decimal text reaches the server
      as that number, in every request, next to the given address. */
  lemma RequestsCarryTheJob(ipAddress: Json, jobId: Json, n: int, xml1: XmlFile)
    requires jobId == Num(n) || jobId == Str(Decimal(n))
    ensures FilesRequest(ipAddress, jobId) == Request(ipAddress, Some(n), None)
    ensures ArchiveRequest(ipAddress, jobId, xml1) == Request(ipAddress, Some(n), Some(xml1.fileName))
  {
    ParseIntDecimal(n);
  }

  /** Text that starts with a letter is NaN to `parseInt`. */
  lemma LetterIsNaN(t: string)
    requires |t| > 0 && 'a' <= t[0] <= 'z'
    ensures ParseInt(t) == None
  {
    assert !IsJsSpace(t[0]) && !IsDigit(t[0]);
    assert SkipSpace(t) == t;
    assert t[0] != '-' && t[0] != '+' && t[0] != '0';
    assert PrefixWhile(t, IsDigit) == [];
    assert ParseMagnitude(t) == None;
  }

  /** A missing job id is sent as NaN. */
  lemma MissingJobIdIsNaN()
    ensures JobId(Undefined) == None && JobId(Null) == None
  {
    LetterIsNaN("undefined");
    LetterIsNaN("null");
  }

  // ----------------------------------------------------------- content

  /** `s.slice(2, -1)`: the stored `b'...'` wrapper is cut off. */
  function Trim<T>(s: seq<T>): (r: seq<T>)
    ensures |s| >= 3 ==> r == s[2..|s| - 1]
    ensures |s| < 3 ==> r == []
  {
    Slice(s, 2, -1)
  }

  /** Trimming undoes the wrapper. */
  lemma TrimUnwraps(x: string)
    ensures Trim("b'" + x + "'") == x
  {
    var w := "b'" + x + "'";
    assert w[2..|w| - 1] == x;
  }

  /** One file as the modal keeps it. */
  datatype XmlFile = XmlFile(fileName: Json, xmlContent: Json)

  /** Both files start as `{file_name: '', xml_content: ''}`. */
  const EmptyFile := XmlFile(Str(""), Str(""))

  /** `v[index]`: throws for `null` and `undefined`. */
  function ElementAt(v: Json, index: nat): (r: Completion<Json>)
    ensures r.Threw? <==> Nullish(v)
    ensures v.Arr? ==> r == Normal(if index < |v.items| then v.items[index] else Undefined)
  {
    match v
    case Undefined => Threw
    case Null => Threw
    case Arr(items) => Normal(if index < |items| then items[index] else Undefined)
    case Obj(_) => Normal(Get(v, Decimal(index)))
    case Str(s) => Normal(if index < |s| then Str([s[index]]) else Undefined)
    case _ => Normal(Undefined)
  }

  /** `data?.data[index]`, its `file_name`, and its
      `xml_content.slice(2, -1)`: a missing entry gives an empty file, and
      content that cannot be sliced throws. */
  function FileAt(data: Json, index: nat): (r: Completion<XmlFile>)
    ensures Nullish(data) ==> r == Normal(XmlFile(Undefined, Undefined))
    ensures !Nullish(data) && Nullish(Get(data, "data")) ==> r.Threw?
  {
    if Nullish(data) then Normal(XmlFile(Undefined, Undefined))
    else match ElementAt(Get(data, "data"), index)
      case Threw => Threw
      case Normal(entry) =>
        if Nullish(entry) then Normal(XmlFile(Undefined, Undefined))
        else match Get(entry, "xml_content")
          case Str(s) => Normal(XmlFile(Get(entry, "file_name"), Str(Trim(s))))
          case Arr(items) => Normal(XmlFile(Get(entry, "file_name"), Arr(Trim(items))))
          case _ => Threw
  }

  /** `get_xml`: both files, or a throw that leaves both as they were. */
  function GetXml(data: Json): (r: Completion<(XmlFile, XmlFile)>)
    ensures r.Normal? <==> FileAt(data, 0).Normal? && FileAt(data, 1).Normal?
  {
    match FileAt(data, 0)
    case Threw => Threw
    case Normal(xml) =>
      match FileAt(data, 1)
      case Threw => Threw
      case Normal(xml1) => Normal((xml, xml1))
  }

  function Entry(fileName: Json, content: string): Json {
    Obj([Field("file_name", fileName), Field("xml_content", Str("b'" + content + "'"))])
  }

  lemma EntryFields(fileName: Json, content: string)
    ensures Get(Entry(fileName, content), "file_name") == fileName
    ensures Get(Entry(fileName, content), "xml_content") == Str("b'" + content + "'")
  {
    var fields := Entry(fileName, content).fields;
    assert "file_name"[0] != "xml_content"[0];
    assert Lookup(fields, "xml_content") == Lookup(fields[1..], "xml_content");
  }

  /** A backup answer with the XML file and the archive yields both files,
      their names as given and their contents unwrapped. */
  lemma GetXmlOfBackup(name0: Json, content0: string, name1: Json, content1: string)
    ensures GetXml(Obj([Field("data", Arr([Entry(name0, content0), Entry(name1, content1)]))]))
         == Normal((XmlFile(name0, Str(content0)), XmlFile(name1, Str(content1))))
  {
    EntryFields(name0, content0);
    EntryFields(name1, content1);
    TrimUnwraps(content0);
    TrimUnwraps(content1);
  }

  /** An answer with only the XML file leaves the second file empty. */
  lemma GetXmlOfSingleFile(name0: Json, content0: string)
    ensures GetXml(Obj([Field("data", Arr([Entry(name0, content0)]))]))
         == Normal((XmlFile(name0, Str(content0)), XmlFile(Undefined, Undefined)))
  {
    EntryFields(name0, content0);
    TrimUnwraps(content0);
  }

  // ------------------------------------------------------------- names

  /** `name.substring(name.lastIndexOf('/') + 1)`: the part after the last
      `/`, or the whole name when there is none. */
  function Basename(name: string): (r: string)
    ensures '/' !in r
    ensures '/' !in name ==> r == name
    ensures |r| <= |name| && name[|name| - |r|..] == r
    ensures |r| < |name| ==> name[|name| - |r| - 1] == '/'
  {
    var r := Substring(name, LastIndexOf(name, '/') + 1);
    assert forall k :: 0 <= k < |r| ==> r[k] == name[|name| - |r| + k];
    r
  }

  /** `f?.substring(f.lastIndexOf('/') + 1)` on a file name of any kind:
      nothing for a missing name, a throw for anything but a string. */
  function DisplayName(fileName: Json): (r: Completion<Json>)
    ensures Nullish(fileName) ==> r == Normal(Undefined)
    ensures fileName.Str? ==> r == Normal(Str(Basename(fileName.s)))
    ensures !Nullish(fileName) && !fileName.Str? ==> r.Threw?
  {
    match fileName
    case Undefined => Normal(Undefined)
    case Null => Normal(Undefined)
    case Str(s) => Normal(Str(Basename(s)))
    case _ => Threw
  }

  /** Prefixing a directory does not change the displayed name. */
  lemma BasenameIgnoresDirectory(dir: string, name: string)
    requires '/' !in name
    ensures Basename(dir + "/" + name) == name
  {
    var s := dir + "/" + name;
    assert s[|dir|] == '/';
    assert forall k :: |dir| < k < |s| ==> s[k] == name[k - |dir| - 1];
    assert LastIndexOf(s, '/') == |dir|;
    assert s[|dir| + 1..] == name;
  }

  // --------------------------------------------------------- accordion

  /** `onToggle`: the given item opens, or closes when it is the open
      one; at most one item is open. */
  function OnToggle(expanded: string, id: string): (r: string)
    ensures r == "" || r == id
    ensures id != "" ==> (r == id <==> expanded != id)
  {
    if id == expanded then "" else id
  }

  /** Opening and closing an item leaves the accordion closed. */
  lemma ToggleTwiceCloses(expanded: string, id: string)
    requires expanded != id
    ensures OnToggle(OnToggle(expanded, id), id) == ""
  {
  }

  // ---------------------------------------------------------- displays

  /** `FileModal` shows the accordion only once the second file has a
      name. */
  predicate AccordionShown(xml1: XmlFile) {
    Truthy(xml1.fileName)
  }

  datatype View = FilesTable(xml: XmlFile, xml1: XmlFile) | Waiting(message: string)

  /** What `Filemodal` shows outside the log view. */
  function FilemodalView(xml: XmlFile, xml1: XmlFile): (r: View)
    ensures r.Waiting? <==> !AccordionShown(xml1)
    ensures r.Waiting? ==> r.message == WaitMessage
    ensures r.FilesTable? ==> r == FilesTable(xml, xml1)
  {
    if Truthy(xml1.fileName) then FilesTable(xml, xml1) else Waiting(WaitMessage)
  }

  /** Before the answer, and after an answer with one file, the modal
      waits; after a full backup answer with a named archive it shows the
      table. */
  lemma ViewFollowsTheAnswer(name0: Json, content0: string, name1: string, content1: string)
    requires name1 != ""
    ensures FilemodalView(EmptyFile, EmptyFile) == Waiting(WaitMessage)
    ensures var r := GetXml(Obj([Field("data", Arr([Entry(name0, content0)]))]));
      r.Normal? && FilemodalView(r.value.0, r.value.1) == Waiting(WaitMessage)
    ensures var r := GetXml(Obj([Field("data", Arr([Entry(name0, content0), Entry(Str(name1), content1)]))]));
      r.Normal? && FilemodalView(r.value.0, r.value.1).FilesTable?
  {
    GetXmlOfSingleFile(name0, content0);
    GetXmlOfBackup(name0, content0, Str(name1), content1);
  }

  // ---------------------------------------------------------- download

  datatype ErrorText = ErrorText(xml: string, tzg: string)

  datatype Saved = Saved(content: Json, fileName: Json)

  /** The state of `FileModal` that its handlers change. */
  class BackupModal {
    var expanded: string
    var xml: XmlFile
    var xml1: XmlFile
    var error: ErrorText
    var saved: seq<Saved>

    constructor ()
      ensures expanded == "" && xml == EmptyFile && xml1 == EmptyFile
      ensures error == ErrorText("", "") && saved == []
    {
      expanded := "";
      xml := EmptyFile;
      xml1 := EmptyFile;
      error := ErrorText("", "");
      saved := [];
    }

    method Toggle(id: string)
      modifies this
      ensures expanded == OnToggle(old(expanded), id)
      ensures xml == old(xml) && xml1 == old(xml1) && error == old(error) && saved == old(saved)
    {
      expanded := OnToggle(expanded, id);
    }

    /** The answer to `get_xml`; a throw inside the `try` changes nothing. */
    method ReceiveXml(data: Json)
      modifies this
      ensures GetXml(data).Normal? ==> xml == GetXml(data).value.0 && xml1 == GetXml(data).value.1
      ensures GetXml(data).Threw? ==> xml == old(xml) && xml1 == old(xml1)
      ensures expanded == old(expanded) && error == old(error) && saved == old(saved)
    {
      match GetXml(data) {
        case Normal((x, x1)) =>
          xml := x;
          xml1 := x1;
        case Threw =>
      }
    }

    /** `download`: the XML file is saved under its name, or, when it has
        no content, the XML error is set and the archive error kept. */
    method Download()
      modifies this
      ensures xml.xmlContent != Undefined ==>
        saved == old(saved) + [Saved(xml.xmlContent, xml.fileName)] && error == old(error)
      ensures xml.xmlContent == Undefined ==>
        saved == old(saved) && error == ErrorText(Unlocatable, old(error).tzg)
      ensures expanded == old(expanded) && xml == old(xml) && xml1 == old(xml1)
    {
      if xml.xmlContent != Undefined {
        saved := saved + [Saved(xml.xmlContent, xml.fileName)];
      } else {
        error := error.(xml := Unlocatable);
      }
    }
  }
}
