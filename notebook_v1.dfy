/** Version 1 notebooks (`sciwyrm.notebook.v1`): a fixed template whose cells 1 and 2 receive
    the SciCat URL and the list of dataset PIDs of a request. */
module NotebookV1 {
  import opened Wrappers
  import opened Json

  /** A notebook cell: its `source` lines and every other field of the cell object. */
  datatype Cell = Cell(source: seq<string>, fields: map<string, Value>)

  /** A notebook document: its `cells` and every other top-level field. */
  datatype Notebook = Notebook(cells: seq<Cell>, fields: map<string, Value>)

  // ----- The request -----

  /** The only version a version 1 request can name. */
  type VersionTag = s: string | s == "1" witness "1"

  datatype NotebookSpecV1 = NotebookSpecV1(version: VersionTag, datasetPids: seq<string>, scicatUrl: string)

  /** The rejection of a version other than "1". */
  datatype SpecError = LiteralError(input: string)

  /** Request validation: an absent version defaults to "1", any version other than "1" is refused. */
  function ParseSpecV1(version: Option<string>, datasetPids: seq<string>, scicatUrl: string): (r: Result<NotebookSpecV1, SpecError>)
    ensures r.Success? <==> version.None? || version == Some("1")
    ensures r.Success? ==> r.value.version == "1" && r.value.datasetPids == datasetPids && r.value.scicatUrl == scicatUrl
    ensures r.Failure? ==> version.Some? && r.error == LiteralError(version.value)
  {
    match version
    case None => Success(NotebookSpecV1("1", datasetPids, scicatUrl))
    case Some(v) => if v == "1" then Success(NotebookSpecV1("1", datasetPids, scicatUrl)) else Failure(LiteralError(v))
  }

  // ----- Cell sources -----

  const PidsHeader: string := "input_dataset_pids = [\n"
  const PidsFooter: string := "]"
  const Indent: string := "    \""
  const UrlPrefix: string := "scicat_url = \""

  /** One PID line of the cell: indentation, the PID in double quotes, optionally a comma, a line break. */
  function PidLine(pid: string, comma: bool): string {
    Indent + pid + (if comma then "\",\n" else "\"\n")
  }

  function PidLines(pids: seq<string>, comma: bool): (r: seq<string>)
    ensures |r| == |pids|
    ensures forall i :: 0 <= i < |pids| ==> r[i] == PidLine(pids[i], comma)
  {
    seq(|pids|, i requires 0 <= i < |pids| => PidLine(pids[i], comma))
  }

  /** `_pids_cell_source` as written: one line per PID and no comma between the lines. */
  function PidsCellSourceAsWritten(pids: seq<string>): (r: seq<string>)
    ensures |r| == |pids| + 2 && r[0] == PidsHeader && r[|r| - 1] == PidsFooter
    ensures forall i :: 0 <= i < |pids| ==> r[i + 1] == Indent + pids[i] + "\"\n"
  {
    [PidsHeader] + PidLines(pids, false) + [PidsFooter]
  }

  /** The PID cell with a comma after every PID, so that each PID is its own list element. */
  function PidsCellSource(pids: seq<string>): (r: seq<string>)
    ensures |r| == |pids| + 2 && r[0] == PidsHeader && r[|r| - 1] == PidsFooter
    ensures forall i :: 0 <= i < |pids| ==> r[i + 1] == Indent + pids[i] + "\",\n"
  {
    [PidsHeader] + PidLines(pids, true) + [PidsFooter]
  }

  /** `_scicat_url_cell_source`: the single line assigning the URL. */
  function ScicatUrlCellSource(url: string): (r: seq<string>)
    ensures |r| == 1 && |r[0]| == |url| + 15
  {
    [UrlPrefix + url + "\""]
  }

  // ----- How Python reads these cells back -----

  /** A text that stands for itself inside a double-quoted Python literal: no quote, no backslash,
      no line break (Python's tokenizer also ends a line at a lone carriage return) and no NUL
      (which Python refuses in source). */
  predicate Plain(s: string) {
    forall i :: 0 <= i < |s| ==>
      s[i] != '"' && s[i] != '\\' && s[i] != '\n' && s[i] != '\r' && s[i] != '\0'
  }

  /** A string literal in a list display, and whether a comma follows it. */
  datatype Literal = Literal(text: string, comma: bool)

  /** One line of the list display: the indentation and opening quote, a plain text, the closing
      quote, an optional comma and the line break. */
  function ReadLine(line: string): Option<Literal> {
    if |line| >= 7 && line[..5] == Indent && line[|line| - 1] == '\n' then
      var rest := line[5..|line| - 1];
      var comma := rest[|rest| - 1] == ',';
      var quoted := if comma then rest[..|rest| - 1] else rest;
      if |quoted| >= 1 && quoted[|quoted| - 1] == '"' && Plain(quoted[..|quoted| - 1])
      then Some(Literal(quoted[..|quoted| - 1], comma))
      else None
    else None
  }

  function ReadLines(lines: seq<string>): Option<seq<Literal>>
    decreases |lines|
  {
    if lines == [] then Some([])
    else
      var first, rest := ReadLine(lines[0]), ReadLines(lines[1..]);
      if first.Some? && rest.Some? then Some([first.value] + rest.value) else None
  }

  /** The elements of a list display of string literals: literals that no comma separates are one
      element (Python concatenates adjacent string literals), and a trailing comma is allowed. */
  function Elements(lits: seq<Literal>, pending: Option<string>): seq<string>
    decreases |lits|
  {
    if lits == [] then (if pending.Some? then [pending.value] else [])
    else
      var text := (if pending.Some? then pending.value else "") + lits[0].text;
      if lits[0].comma then [text] + Elements(lits[1..], None) else Elements(lits[1..], Some(text))
  }

  /** The value Python assigns to `input_dataset_pids` when it runs a PID cell of this layout. */
  function ReadPidsCell(source: seq<string>): Option<seq<string>> {
    if |source| >= 2 && source[0] == PidsHeader && source[|source| - 1] == PidsFooter then
      match ReadLines(source[1..|source| - 1])
      case Some(lits) => Some(Elements(lits, None))
      case None => None
    else None
  }

  /** The value Python assigns to `scicat_url` when it runs a URL cell of this layout. */
  function ReadUrlCell(source: seq<string>): Option<string> {
    if |source| == 1 && |source[0]| >= 15 && source[0][..14] == UrlPrefix && source[0][|source[0]| - 1] == '"'
       && Plain(source[0][14..|source[0]| - 1])
    then Some(source[0][14..|source[0]| - 1])
    else None
  }

  function Concat(ss: seq<string>): string
    decreases |ss|
  {
    if ss == [] then "" else ss[0] + Concat(ss[1..])
  }

  lemma ReadPidLine(pid: string, comma: bool)
    requires Plain(pid)
    ensures ReadLine(PidLine(pid, comma)) == Some(Literal(pid, comma))
  {
    var line := PidLine(pid, comma);
    assert line[..5] == Indent;
    var rest := line[5..|line| - 1];
    if comma {
      assert rest == pid + "\",";
      var quoted := rest[..|rest| - 1];
      assert quoted == pid + "\"";
      assert quoted[..|quoted| - 1] == pid;
    } else {
      assert rest == pid + "\"";
      assert rest[..|rest| - 1] == pid;
    }
  }

  /** The literals of a run of PID lines, all with or all without a comma. */
  function Literals(pids: seq<string>, comma: bool): (r: seq<Literal>)
    ensures |r| == |pids|
    ensures forall i :: 0 <= i < |pids| ==> r[i] == Literal(pids[i], comma)
  {
    seq(|pids|, i requires 0 <= i < |pids| => Literal(pids[i], comma))
  }

  lemma {:induction false} ReadPidLines(pids: seq<string>, comma: bool)
    requires forall i :: 0 <= i < |pids| ==> Plain(pids[i])
    ensures ReadLines(PidLines(pids, comma)) == Some(Literals(pids, comma))
    decreases |pids|
  {
    if pids != [] {
      var lines := PidLines(pids, comma);
      assert lines[1..] == PidLines(pids[1..], comma);
      ReadPidLine(pids[0], comma);
      ReadPidLines(pids[1..], comma);
      assert Literals(pids, comma) == [Literal(pids[0], comma)] + Literals(pids[1..], comma);
    }
  }

  lemma {:induction false} ElementsWithCommas(pids: seq<string>)
    ensures Elements(Literals(pids, true), None) == pids
    decreases |pids|
  {
    if pids != [] {
      assert Literals(pids, true)[1..] == Literals(pids[1..], true);
      ElementsWithCommas(pids[1..]);
      assert "" + pids[0] == pids[0];
    }
  }

  lemma {:induction false} ElementsWithoutCommas(pids: seq<string>, pending: string)
    ensures Elements(Literals(pids, false), Some(pending)) == [pending + Concat(pids)]
    decreases |pids|
  {
    if pids == [] {
      assert pending + Concat(pids) == pending;
    } else {
      assert Literals(pids, false)[1..] == Literals(pids[1..], false);
      ElementsWithoutCommas(pids[1..], pending + pids[0]);
      assert pending + pids[0] + Concat(pids[1..]) == pending + Concat(pids);
    }
  }

  /** Reading a PID cell of this layout is reading its literals as a list display. */
  lemma ReadPidsCellOf(pids: seq<string>, comma: bool)
    requires forall i :: 0 <= i < |pids| ==> Plain(pids[i])
    ensures ReadPidsCell([PidsHeader] + PidLines(pids, comma) + [PidsFooter]) == Some(Elements(Literals(pids, comma), None))
  {
    var source := [PidsHeader] + PidLines(pids, comma) + [PidsFooter];
    assert source[1..|source| - 1] == PidLines(pids, comma);
    ReadPidLines(pids, comma);
  }

  /** With a comma after each PID, Python reads back exactly the requested PIDs, in order. */
  lemma PidsCellRoundTrip(pids: seq<string>)
    requires forall i :: 0 <= i < |pids| ==> Plain(pids[i])
    ensures ReadPidsCell(PidsCellSource(pids)) == Some(pids)
  {
    ReadPidsCellOf(pids, true);
    ElementsWithCommas(pids);
  }

  /** As written, Python reads the PID cell as a list of ONE element, all PIDs run together. */
  lemma PidsCellAsWrittenMerges(pids: seq<string>)
    requires |pids| >= 1
    requires forall i :: 0 <= i < |pids| ==> Plain(pids[i])
    ensures ReadPidsCell(PidsCellSourceAsWritten(pids)) == Some([Concat(pids)])
  {
    ReadPidsCellOf(pids, false);
    ElementsOneRun(pids);
  }

  lemma ElementsOneRun(pids: seq<string>)
    requires |pids| >= 1
    ensures Elements(Literals(pids, false), None) == [Concat(pids)]
  {
    var lits := Literals(pids, false);
    assert Elements(lits, None) == Elements(lits[1..], Some("" + pids[0]));
    assert "" + pids[0] == pids[0];
    assert lits[1..] == Literals(pids[1..], false);
    ElementsWithoutCommas(pids[1..], pids[0]);
  }

  /** The two PIDs of the repository's own test come back as one. */
  lemma PidsCellAsWrittenCounterexample()
    ensures ReadPidsCell(PidsCellSourceAsWritten(["7192983", "7ca7/31a.2as"])) == Some(["71929837ca7/31a.2as"])
  {
    var pids := ["7192983", "7ca7/31a.2as"];
    PlainLiteral(pids[0]);
    PlainLiteral(pids[1]);
    PidsCellAsWrittenMerges(pids);
    assert Concat(pids) == pids[0] + Concat(pids[1..]);
    assert Concat(pids[1..]) == pids[1] + Concat(pids[2..]);
    assert pids[2..] == [];
    assert pids[0] + pids[1] + "" == "71929837ca7/31a.2as";
    assert Concat(pids) == "71929837ca7/31a.2as";
    assert ReadPidsCell(PidsCellSourceAsWritten(pids)) == Some([Concat(pids)]);
  }

  /** A text without quotes, backslashes, line breaks (`\n`, `\r`) or NUL is plain. */
  lemma PlainLiteral(s: string)
    requires '"' !in s && '\\' !in s && '\n' !in s && '\r' !in s && '\0' !in s
    ensures Plain(s)
  {
    assert forall i :: 0 <= i < |s| ==> s[i] in s;
  }

  /** Python reads back the URL that was written. */
  lemma UrlCellRoundTrip(url: string)
    requires Plain(url)
    ensures ReadUrlCell(ScicatUrlCellSource(url)) == Some(url)
  {
    var line := ScicatUrlCellSource(url)[0];
    assert line[..14] == UrlPrefix;
    assert line[14..|line| - 1] == url;
  }

  /** `s` occurs in `t`. */
  ghost predicate Contains(t: string, s: string) {
    exists k :: OccursAt(t, s, k)
  }

  predicate OccursAt(t: string, s: string, k: int) {
    0 <= k <= |t| - |s| && t[k..k + |s|] == s
  }

  /** Every requested PID occurs in the PID cell, as written and corrected alike, on its own line
      in request order, and the URL occurs in the URL cell. */
  lemma RequestedValuesAppear(pids: seq<string>, url: string)
    ensures forall i :: 0 <= i < |pids| ==> Contains(PidsCellSourceAsWritten(pids)[i + 1], pids[i])
    ensures forall i :: 0 <= i < |pids| ==> Contains(PidsCellSource(pids)[i + 1], pids[i])
    ensures Contains(ScicatUrlCellSource(url)[0], url)
  {
    forall i | 0 <= i < |pids| ensures Contains(PidsCellSourceAsWritten(pids)[i + 1], pids[i]) {
      var line := PidsCellSourceAsWritten(pids)[i + 1];
      assert OccursAt(line, pids[i], 5);
    }
    forall i | 0 <= i < |pids| ensures Contains(PidsCellSource(pids)[i + 1], pids[i]) {
      var line := PidsCellSource(pids)[i + 1];
      assert OccursAt(line, pids[i], 5);
    }
    var line := ScicatUrlCellSource(url)[0];
    assert OccursAt(line, url, 14);
  }

  // ----- Formatting -----

  /** The PID cell as the code writes it (`corrected` false) or with a comma after each PID. */
  function PidsCell(pids: seq<string>, corrected: bool): seq<string> {
    if corrected then PidsCellSource(pids) else PidsCellSourceAsWritten(pids)
  }

  /** The notebook a request produces from the template: cell 1 gets the URL cell, cell 2 the PID
      cell, and nothing else changes. `format_notebook` writes the PID cell as written; the
      corrected variant is the one whose PIDs read back. */
  function Formatted(template: Notebook, spec: NotebookSpecV1, corrected: bool): (nb: Notebook)
    requires |template.cells| >= 3
    ensures |nb.cells| == |template.cells| && nb.fields == template.fields
    ensures nb.cells[1] == template.cells[1].(source := ScicatUrlCellSource(spec.scicatUrl))
    ensures nb.cells[2] == template.cells[2].(source := PidsCell(spec.datasetPids, corrected))
    ensures forall i :: 0 <= i < |template.cells| && i != 1 && i != 2 ==> nb.cells[i] == template.cells[i]
  {
    var cells := template.cells[1 := template.cells[1].(source := ScicatUrlCellSource(spec.scicatUrl))];
    template.(cells := cells[2 := cells[2].(source := PidsCell(spec.datasetPids, corrected))])
  }

  /** Running the notebook `format_notebook` builds sets `scicat_url` to the requested URL, but
      `input_dataset_pids` to one element holding all PIDs run together (none when there are none). */
  lemma FormattedAsWrittenReadsBack(template: Notebook, spec: NotebookSpecV1)
    requires |template.cells| >= 3
    requires Plain(spec.scicatUrl)
    requires forall i :: 0 <= i < |spec.datasetPids| ==> Plain(spec.datasetPids[i])
    ensures ReadUrlCell(Formatted(template, spec, false).cells[1].source) == Some(spec.scicatUrl)
    ensures ReadPidsCell(Formatted(template, spec, false).cells[2].source) ==
      Some(if spec.datasetPids == [] then [] else [Concat(spec.datasetPids)])
  {
    UrlCellRoundTrip(spec.scicatUrl);
    if spec.datasetPids == [] {
      ReadPidsCellOf(spec.datasetPids, false);
    } else {
      PidsCellAsWrittenMerges(spec.datasetPids);
    }
  }

  /** Running the corrected notebook sets `scicat_url` and `input_dataset_pids` to the request's values. */
  lemma FormattedReadsBack(template: Notebook, spec: NotebookSpecV1)
    requires |template.cells| >= 3
    requires Plain(spec.scicatUrl)
    requires forall i :: 0 <= i < |spec.datasetPids| ==> Plain(spec.datasetPids[i])
    ensures ReadUrlCell(Formatted(template, spec, true).cells[1].source) == Some(spec.scicatUrl)
    ensures ReadPidsCell(Formatted(template, spec, true).cells[2].source) == Some(spec.datasetPids)
  {
    UrlCellRoundTrip(spec.scicatUrl);
    PidsCellRoundTrip(spec.datasetPids);
  }

  /** The template loaded once when the module is imported (`_notebook_template_v1`). */
  class TemplateStore {
    const cells: array<Cell>
    const fields: map<string, Value>

    constructor (template: Notebook)
      ensures Template() == template
    {
      cells := new Cell[|template.cells|](i requires 0 <= i < |template.cells| => template.cells[i]);
      fields := template.fields;
    }

    function Template(): Notebook
      reads this, cells
    {
      Notebook(cells[..], fields)
    }

    /** `format_notebook`: copy the stored template, then replace the sources of cells 1 and 2 of
        the copy. The stored template itself is never written. */
    method FormatNotebook(spec: NotebookSpecV1) returns (nb: Notebook)
      requires cells.Length >= 3
      ensures nb == Formatted(Template(), spec, false)
    {
      var copy := new Cell[cells.Length];
      for i := 0 to cells.Length
        invariant copy[..i] == cells[..i]
      {
        copy[i] := cells[i];
      }
      copy[1] := copy[1].(source := ScicatUrlCellSource(spec.scicatUrl));
      copy[2] := copy[2].(source := PidsCellSourceAsWritten(spec.datasetPids));
      nb := Notebook(copy[..], fields);
    }
  }

  /** Two requests in a row: the second notebook is the one the second request gets on its own,
      whatever the first request asked for. */
  method FormatTwice(store: TemplateStore, first: NotebookSpecV1, second: NotebookSpecV1) returns (nb1: Notebook, nb2: Notebook)
    requires store.cells.Length >= 3
    ensures nb1 == Formatted(store.Template(), first, false)
    ensures nb2 == Formatted(store.Template(), second, false)
  {
    nb1 := store.FormatNotebook(first);
    nb2 := store.FormatNotebook(second);
  }
}
