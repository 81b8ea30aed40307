/**
 * The projects file, `data/projectsData.js`: the two writers that regenerate it
 * from the list (`writeProjectsFile` of src/project-tools.ts and `writeProjects`
 * of api/portfolio.ts) and the two readers that turn it into JSON text for
 * `JSON.parse` (`parseProjectsFile` of src/project-tools.ts and `listProjects`
 * of api/portfolio.ts).
 */
module ProjectCodec {
  import opened Wrappers
  import opened Text
  import opened ProjectList

  /** The local writer dereferences the four required fields (a missing one is a
      `TypeError`); the API writer writes `''` for them. */
  datatype Writer = FileWriter | ApiWriter

  const RequiredNames: seq<string> := ["title", "description", "imgSrc", "href"]
  const OptionalNames: seq<string> := ["github", "tech1", "tech2", "tech3"]

  datatype Field = Field(name: string, value: string)

  /** One required field: the local writer fails on a missing one, the API writer
      substitutes the empty string (`p.title || ''`). */
  function Required(w: Writer, name: string, f: Option<string>): Result<Field, ProjectError> {
    if f.Some? then Ok(Field(name, f.value))
    else if w == FileWriter then Err(MissingField(name))
    else Ok(Field(name, ""))
  }

  /** One optional field: written only when truthy. */
  function Optional(name: string, f: Option<string>): seq<Field> {
    if Truthy(f) then [Field(name, f.value)] else []
  }

  /** The fields a writer writes for `p`, in the file's fixed order. */
  function Fields(w: Writer, p: Project): (r: Result<seq<Field>, ProjectError>)
    ensures r.Ok? ==> |r.value| >= 4
  {
    var t := Required(w, "title", p.title);
    var d := Required(w, "description", p.description);
    var i := Required(w, "imgSrc", p.imgSrc);
    var h := Required(w, "href", p.href);
    if t.Err? then Err(t.error)
    else if d.Err? then Err(d.error)
    else if i.Err? then Err(i.error)
    else if h.Err? then Err(h.error)
    else
      Ok([t.value, d.value, i.value, h.value] +
         Optional("github", p.github) + Optional("tech1", p.tech1) +
         Optional("tech2", p.tech2) + Optional("tech3", p.tech3))
  }

  function Names(fs: seq<Field>): (ns: seq<string>)
    ensures |ns| == |fs|
    ensures forall i :: 0 <= i < |fs| ==> ns[i] == fs[i].name
  {
    seq(|fs|, i requires 0 <= i < |fs| => fs[i].name)
  }

  /** `  name: '<value with ' escaped>',` */
  function FieldLine(f: Field): string {
    "  " + f.name + ": '" + EscapeQuotes(f.value) + "',"
  }

  /** How a writer takes the comma off the last field line: the local writer cuts
      the last character (`.slice(0, -1)`), the API writer removes a comma at the
      end (`.replace(/,$/, '')`). */
  function Uncomma(w: Writer, line: string): string {
    if w == FileWriter then DropLast(line)
    else if EndsWith(line, ",") then line[..|line| - 1] else line
  }

  /** `.slice(0, -1)`: the text without its last character. */
  function DropLast(s: string): string {
    if s == [] then [] else s[..|s| - 1]
  }

  /** The field lines of a record, every one with its comma except the last. */
  function FieldLines(w: Writer, fs: seq<Field>): (ls: seq<string>)
    requires fs != []
    ensures |ls| == |fs|
  {
    var ls := seq(|fs|, i requires 0 <= i < |fs| => FieldLine(fs[i]));
    ls[|ls| - 1 := Uncomma(w, ls[|ls| - 1])]
  }

  function RecordText(w: Writer, fs: seq<Field>): string
    requires fs != []
  {
    Join(["{"] + FieldLines(w, fs) + ["},"], "\n")
  }

  /** The header line, up to (not including) the array's `[`. */
  const HeaderStart := "const" + (" " + ("projectsData" + (" " + ("=" + " "))))
  const FilePrefix := HeaderStart + "[" + "\n"
  const FileSuffix := "\n];\n\nexport default projectsData;\n"

  function FileText(records: seq<string>): string {
    FilePrefix + Join(records, "\n") + FileSuffix
  }

  /** The record texts of a list, or the first record's error. */
  function RecordTexts(w: Writer, ps: seq<Project>): Result<seq<string>, ProjectError>
    decreases |ps|
  {
    if ps == [] then Ok([])
    else match RecordTexts(w, ps[..|ps| - 1])
      case Err(e) => Err(e)
      case Ok(rs) =>
        match Fields(w, ps[|ps| - 1])
        case Err(e) => Err(e)
        case Ok(fs) => Ok(rs + [RecordText(w, fs)])
  }

  /** The text a writer produces for a list of projects. */
  function ProjectsText(w: Writer, ps: seq<Project>): Result<string, ProjectError> {
    match RecordTexts(w, ps)
    case Err(e) => Err(e)
    case Ok(rs) => Ok(FileText(rs))
  }

  // ----- the writers -----

  /** One record, built line by line: `{`, the field lines, the last line's comma
      dropped in place, then `},`. */
  method BuildRecord(w: Writer, p: Project) returns (r: Result<string, ProjectError>)
    ensures r == match Fields(w, p) case Err(e) => Err(e) case Ok(fs) => Ok(RecordText(w, fs))
  {
    var fields := Fields(w, p);
    if fields.Err? {
      return Err(fields.error);
    }
    var fs := fields.value;
    var lines := OpenLines(fs);
    var last := |lines| - 1;
    UncommaLast(w, fs, lines);
    lines := lines[last := Uncomma(w, lines[last])];
    ghost var body := lines;
    lines := lines + ["},"];
    assert lines == body + ["},"];
    r := Ok(Join(lines, "\n"));
  }

  /** The opening line followed by one line per field, each still with its comma. */
  method OpenLines(fs: seq<Field>) returns (lines: seq<string>)
    ensures |lines| == |fs| + 1 && lines[0] == "{"
    ensures forall k :: 1 <= k <= |fs| ==> lines[k] == FieldLine(fs[k - 1])
  {
    lines := ["{"];
    var i := 0;
    while i < |fs|
      invariant 0 <= i <= |fs|
      invariant |lines| == i + 1 && lines[0] == "{"
      invariant forall k :: 1 <= k <= i ==> lines[k] == FieldLine(fs[k - 1])
    {
      lines := lines + [FieldLine(fs[i])];
      i := i + 1;
    }
  }

  /** Taking the comma off the last of the opening line and the field lines gives
      the record's lines. */
  lemma UncommaLast(w: Writer, fs: seq<Field>, lines: seq<string>)
    requires fs != []
    requires |lines| == |fs| + 1 && lines[0] == "{"
    requires forall k :: 1 <= k <= |fs| ==> lines[k] == FieldLine(fs[k - 1])
    ensures lines[|fs| := Uncomma(w, lines[|fs|])] == ["{"] + FieldLines(w, fs)
  {
    var ls := FieldLines(w, fs);
    var r := lines[|fs| := Uncomma(w, lines[|fs|])];
    var q := ["{"] + ls;
    forall k | 0 <= k <= |fs| ensures r[k] == q[k] {
    }
  }

  /** `writeProjectsFile` / `writeProjects`: map every project to its record, then
      wrap the records in the fixed template. */
  method WriteProjects(w: Writer, ps: seq<Project>) returns (r: Result<string, ProjectError>)
    ensures r == ProjectsText(w, ps)
  {
    var records: seq<string> := [];
    var i := 0;
    while i < |ps|
      invariant 0 <= i <= |ps|
      invariant RecordTexts(w, ps[..i]) == Ok(records)
    {
      assert ps[..i + 1][..i] == ps[..i];
      assert ps[..i + 1][i] == ps[i];
      var rec := BuildRecord(w, ps[i]);
      if rec.Err? {
        RecordTextsErr(w, ps, i + 1);
        return Err(rec.error);
      }
      records := records + [rec.value];
      i := i + 1;
    }
    assert ps[..i] == ps;
    r := Ok(FileText(records));
  }

  /** Once a prefix of the list fails, the whole list fails with that error. */
  lemma {:induction false} RecordTextsErr(w: Writer, ps: seq<Project>, n: nat)
    requires n <= |ps|
    requires RecordTexts(w, ps[..n]).Err?
    ensures RecordTexts(w, ps) == RecordTexts(w, ps[..n])
    decreases |ps| - n
  {
    if n < |ps| {
      assert ps[..n + 1][..n] == ps[..n];
      RecordTextsErr(w, ps, n + 1);
    } else {
      assert ps[..n] == ps;
    }
  }

  // ----- what the writers write -----

  /** The local writer fails exactly when a required field is missing; the API writer never fails. */
  lemma FieldsFailIff(w: Writer, p: Project)
    ensures Fields(w, p).Err? <==>
      w == FileWriter && (p.title.None? || p.description.None? || p.imgSrc.None? || p.href.None?)
  {
  }

  /** The API writer writes a missing required field as the empty string. */
  lemma ApiWritesEmptyForMissing(p: Project)
    requires p.title.None?
    ensures Fields(ApiWriter, p).value[0] == Field("title", "")
  {
  }

  /** The name an optional field contributes to the record: its own when truthy. */
  function OptionalName(name: string, f: Option<string>): seq<string> {
    if Truthy(f) then [name] else []
  }

  /** The field order: the four required fields, then each optional one that is truthy,
      in the order github, tech1, tech2, tech3. */
  lemma FieldOrder(w: Writer, p: Project)
    requires Fields(w, p).Ok?
    ensures Names(Fields(w, p).value) ==
      RequiredNames + OptionalName("github", p.github) + OptionalName("tech1", p.tech1) +
      OptionalName("tech2", p.tech2) + OptionalName("tech3", p.tech3)
  {
    var fs := Fields(w, p).value;
    var req := fs[..4];
    var g := Optional("github", p.github);
    var t1 := Optional("tech1", p.tech1);
    var t2 := Optional("tech2", p.tech2);
    var t3 := Optional("tech3", p.tech3);
    assert fs == req + g + t1 + t2 + t3;
    assert Names(req) == RequiredNames;
    assert Names(g) == OptionalName("github", p.github);
    assert Names(t1) == OptionalName("tech1", p.tech1);
    assert Names(t2) == OptionalName("tech2", p.tech2);
    assert Names(t3) == OptionalName("tech3", p.tech3);
    NamesAppend(req, g);
    NamesAppend(req + g, t1);
    NamesAppend(req + g + t1, t2);
    NamesAppend(req + g + t1 + t2, t3);
  }

  lemma NamesAppend(a: seq<Field>, b: seq<Field>)
    ensures Names(a + b) == Names(a) + Names(b)
  {
  }

  /** The two ways of taking off the last comma agree on every field line. */
  lemma UncommaAgrees(f: Field)
    ensures Uncomma(FileWriter, FieldLine(f)) == Uncomma(ApiWriter, FieldLine(f))
    ensures Uncomma(FileWriter, FieldLine(f)) == "  " + f.name + ": '" + EscapeQuotes(f.value) + "'"
  {
    var line := FieldLine(f);
    assert line == ("  " + f.name + ": '" + EscapeQuotes(f.value) + "'") + ",";
  }

  /** Where both writers succeed, they write the same record. */
  lemma WritersAgree(p: Project)
    requires p.title.Some? && p.description.Some? && p.imgSrc.Some? && p.href.Some?
    ensures Fields(FileWriter, p) == Fields(ApiWriter, p)
    ensures RecordText(FileWriter, Fields(FileWriter, p).value) == RecordText(ApiWriter, Fields(ApiWriter, p).value)
  {
    var fs := Fields(FileWriter, p).value;
    UncommaAgrees(fs[|fs| - 1]);
    assert FieldLines(FileWriter, fs) == FieldLines(ApiWriter, fs);
  }

  /** The list-level consequence: when every record has its required fields, the
      two writers produce the same file. */
  lemma {:induction false} FilesAgree(ps: seq<Project>)
    requires forall i :: 0 <= i < |ps| ==> ps[i].title.Some? && ps[i].description.Some? && ps[i].imgSrc.Some? && ps[i].href.Some?
    ensures RecordTexts(FileWriter, ps) == RecordTexts(ApiWriter, ps)
    ensures ProjectsText(FileWriter, ps) == ProjectsText(ApiWriter, ps)
    decreases |ps|
  {
    if ps != [] {
      FilesAgree(ps[..|ps| - 1]);
      WritersAgree(ps[|ps| - 1]);
    }
  }

  /** Every field line but the last keeps its comma; the last one's value is closed
      by its quote alone; and each value is written escaped so that undoing the
      escapes gives the value back. */
  lemma FieldLinesShape(w: Writer, fs: seq<Field>)
    requires fs != []
    ensures forall i :: 0 <= i < |fs| - 1 ==> FieldLines(w, fs)[i] == "  " + fs[i].name + ": '" + EscapeQuotes(fs[i].value) + "',"
    ensures FieldLines(w, fs)[|fs| - 1] == "  " + fs[|fs| - 1].name + ": '" + EscapeQuotes(fs[|fs| - 1].value) + "'"
    ensures forall i :: 0 <= i < |fs| ==> UnescapeQuotes(EscapeQuotes(fs[i].value)) == fs[i].value
  {
    var ls := FieldLines(w, fs);
    forall i | 0 <= i < |fs| - 1 ensures ls[i] == FieldLine(fs[i]) {
    }
    assert ls[|fs| - 1] == Uncomma(w, FieldLine(fs[|fs| - 1]));
    UncommaAgrees(fs[|fs| - 1]);
    forall i | 0 <= i < |fs| ensures UnescapeQuotes(EscapeQuotes(fs[i].value)) == fs[i].value {
      EscapeQuotesRoundTrip(fs[i].value);
    }
  }

  /** The file is the fixed template around the records. */
  lemma FileTemplate(records: seq<string>)
    ensures StartsWith(FileText(records), "const projectsData = [\n")
    ensures EndsWith(FileText(records), "\n];\n\nexport default projectsData;\n")
  {
    var t := FileText(records);
    assert t[..|FilePrefix|] == FilePrefix;
    assert t[|t| - |FileSuffix|..] == FileSuffix;
  }

  /** What every non-empty written file starts with: the header, the first record's
      opening brace and its `title` key, unquoted, before the value's quote. */
  const TitleOpen := "  " + "title" + ": '"
  const RecordOpen := "{" + "\n" + TitleOpen
  const WrittenHead := FilePrefix + RecordOpen

  /** The first record text is the first project's record. */
  lemma {:induction false} RecordTextsFirst(w: Writer, ps: seq<Project>)
    requires ps != [] && RecordTexts(w, ps).Ok?
    ensures Fields(w, ps[0]).Ok?
    ensures RecordTexts(w, ps).value != [] && RecordTexts(w, ps).value[0] == RecordText(w, Fields(w, ps[0]).value)
    decreases |ps|
  {
    var init := ps[..|ps| - 1];
    if init == [] {
      assert ps == [ps[0]];
    } else {
      assert init[0] == ps[0];
      RecordTextsFirst(w, init);
    }
  }

  /** The first field a writer writes is the title. */
  lemma FieldsFirst(w: Writer, p: Project)
    requires Fields(w, p).Ok?
    ensures Fields(w, p).value[0].name == "title"
  {
  }

  /** The first field line is the first field's line, comma included. */
  lemma FieldLinesFirst(w: Writer, fs: seq<Field>)
    requires |fs| >= 2
    requires fs[0].name == "title"
    ensures FieldLines(w, fs)[0] == TitleOpen + (EscapeQuotes(fs[0].value) + "',")
  {
    var e := EscapeQuotes(fs[0].value);
    assert FieldLines(w, fs)[0] == FieldLine(fs[0]);
    ConcatAssoc(TitleOpen, e, "',");
  }

  /** A record opens with its brace line and then its first field's line. */
  lemma RecordHead(w: Writer, fs: seq<Field>)
    requires |fs| >= 2 && fs[0].name == "title"
    ensures StartsWith(RecordText(w, fs), RecordOpen)
  {
    var ls := FieldLines(w, fs);
    FieldLinesFirst(w, fs);
    StartsWithPart(TitleOpen, EscapeQuotes(fs[0].value) + "',");
    BraceThenFirst(ls, TitleOpen);
  }

  /** Lines joined after a brace line start with the brace line and the first of them. */
  lemma BraceThenFirst(ls: seq<string>, p: string)
    requires ls != [] && StartsWith(ls[0], p)
    ensures StartsWith(Join(["{"] + ls + ["},"], "\n"), "{" + "\n" + p)
  {
    var more := ls + ["},"];
    assert ["{"] + ls + ["},"] == ["{"] + more;
    JoinCons("{", more, "\n");
    JoinStartsWithFirst(more, "\n");
    var rest := Join(more, "\n");
    assert StartsWith(rest, more[0]);
    StartsWithTrans(rest, p, more[0]);
    StartsWithFront("{" + "\n", rest, p);
  }

  /** A file starts with the header and then its first record. */
  lemma FileHead(rs: seq<string>, h: string)
    requires rs != [] && StartsWith(rs[0], h)
    ensures StartsWith(FileText(rs), FilePrefix + h)
  {
    var j := Join(rs, "\n");
    JoinStartsWithFirst(rs, "\n");
    StartsWithTrans(j, h, rs[0]);
    StartsWithFront(FilePrefix, j, h);
    StartsWithBack(FilePrefix + j, FileSuffix, FilePrefix + h);
  }

  /** Every non-empty file a writer produces starts with the header and, right after
      it, the first record's bare `title` key. */
  lemma WrittenStartsWithHead(w: Writer, ps: seq<Project>)
    requires ps != [] && ProjectsText(w, ps).Ok?
    ensures StartsWith(ProjectsText(w, ps).value, WrittenHead)
  {
    RecordTextsFirst(w, ps);
    FieldsFirst(w, ps[0]);
    RecordHead(w, Fields(w, ps[0]).value);
    FileHead(RecordTexts(w, ps).value, RecordOpen);
  }
}
