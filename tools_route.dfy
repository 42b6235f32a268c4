/** The `GET /api/tools` handler (src/app/api/tools/route.js) with its
    upstream reads abstracted: the environment's credentials are an input
    value, and the authenticated spreadsheet client is a function from the
    credentials it is built with to the outcome of the two range reads. */
module ToolsRoute {
  import opened Wrappers
  import opened Seqs

  /** One listed tool: the eight columns of a sheet row, by position. */
  datatype ToolRecord = ToolRecord(
    tool: string, url: string, addedBy: string, date: string,
    subject: string, description: string, capabilities: string, rating: string)

  /** The number of columns a record reads. */
  const FieldCount: nat := 8

  /** The fixed column schema: a record's fields in sheet column order. */
  function Fields(r: ToolRecord): (cells: seq<string>)
    ensures |cells| == FieldCount
  {
    [r.tool, r.url, r.addedBy, r.date, r.subject, r.description, r.capabilities, r.rating]
  }

  /** `row[i] || ''`: the cell when it holds a truthy string, and the empty
      string when the cell is missing (past the end of a short row) or is
      itself the falsy `""`. */
  function Cell(row: seq<string>, i: nat): (c: string)
    ensures i < |row| && Truthy(row[i]) ==> c == row[i]
    ensures !(i < |row| && Truthy(row[i])) ==> c == ""
  {
    if i < |row| then row[i] else ""
  }

  /** The record the handler builds from one sheet row. Field `i` is cell `i`
      when the row has it and `""` otherwise; cells after the eighth are not read. */
  function ToRecord(row: seq<string>): (r: ToolRecord)
    ensures forall i :: 0 <= i < FieldCount ==> Fields(r)[i] == (if i < |row| then row[i] else "")
  {
    ToolRecord(Cell(row, 0), Cell(row, 1), Cell(row, 2), Cell(row, 3),
               Cell(row, 4), Cell(row, 5), Cell(row, 6), Cell(row, 7))
  }

  /** Reading a record's own columns back gives the record. */
  lemma RecordRoundTrip(r: ToolRecord)
    ensures ToRecord(Fields(r)) == r
  {
    var cells := Fields(r);
    assert cells[0] == r.tool && cells[7] == r.rating;
  }

  /** The columns of a mapped row are its first eight cells, padded with `""`. */
  lemma FieldsOfRecord(row: seq<string>)
    ensures Fields(ToRecord(row)) == PadCells(row[..if |row| < FieldCount then |row| else FieldCount], FieldCount)
  {
    var n := if |row| < FieldCount then |row| else FieldCount;
    var padded := PadCells(row[..n], FieldCount);
    forall i | 0 <= i < FieldCount
      ensures Fields(ToRecord(row))[i] == padded[i]
    {
      if i < n {
        assert padded[i] == row[..n][i];
      } else {
        assert padded[i] == "";
      }
    }
  }

  /** `cells` followed by empty cells up to `width`. */
  function PadCells(cells: seq<string>, width: nat): (r: seq<string>)
    requires |cells| <= width
    ensures |r| == width
    ensures forall i :: 0 <= i < width ==> r[i] == (if i < |cells| then cells[i] else "")
  {
    cells + seq(width - |cells|, _ => "")
  }

  /** A short row maps like the same row with its missing cells present and
      empty, and a long row like its first eight cells. */
  lemma ShortAndLongRows(row: seq<string>, extra: seq<string>)
    requires |row| <= FieldCount
    ensures ToRecord(PadCells(row, FieldCount)) == ToRecord(row)
    ensures ToRecord(PadCells(row, FieldCount) + extra) == ToRecord(row)
  {
    var padded := PadCells(row, FieldCount);
    assert forall i :: 0 <= i < FieldCount ==> (padded + extra)[i] == padded[i];
  }

  /** `rows.map(row => ({ ... }))`: one record per row, in row order. */
  function ToRecords(rows: seq<seq<string>>): (tools: seq<ToolRecord>)
    ensures |tools| == |rows|
    ensures forall i :: 0 <= i < |rows| ==> tools[i] == ToRecord(rows[i])
    decreases |rows|
  {
    if rows == [] then [] else [ToRecord(rows[0])] + ToRecords(rows[1..])
  }

  /** `filter(Boolean)` on sheet cells: a cell string is kept unless empty. */
  function Truthy(cell: string): bool {
    cell != ""
  }

  /** `[...new Set(subjectRows.flat().filter(Boolean))]`. The subjects are
      exactly the non-empty cells of the subject rows, each once, in the order
      in which they first occur when the rows are read row by row. */
  function Subjects(subjectRows: seq<seq<string>>): (subjects: seq<string>)
    ensures "" !in subjects
    ensures NoDuplicates(subjects)
    ensures forall i :: 0 <= i < |subjects| ==> subjects[i] in Flatten(subjectRows)
  {
    FilterIsSubsequence(Flatten(subjectRows), Truthy);
    Dedup(Filter(Flatten(subjectRows), Truthy))
  }

  /** The subjects are the non-empty cells, each once, in the order of
      their first appearance in the subject column. */
  lemma SubjectsSpec(subjectRows: seq<seq<string>>)
    ensures "" !in Subjects(subjectRows)
    ensures forall x :: x in Subjects(subjectRows) <==> x != "" && x in Flatten(subjectRows)
    ensures NoDuplicates(Subjects(subjectRows))
    ensures forall i, j :: 0 <= i < j < |Subjects(subjectRows)| ==>
      FirstIndex(Flatten(subjectRows), Subjects(subjectRows)[i]) < FirstIndex(Flatten(subjectRows), Subjects(subjectRows)[j])
  {
    SubjectMembers(subjectRows);
    SubjectOrder(subjectRows);
  }

  lemma SubjectMembers(subjectRows: seq<seq<string>>)
    ensures forall x :: x in Subjects(subjectRows) <==> x != "" && x in Flatten(subjectRows)
  {
    var kept := Filter(Flatten(subjectRows), Truthy);
    DedupMembers(kept);
    FilterIsSubsequence(Flatten(subjectRows), Truthy);
  }

  lemma SubjectOrder(subjectRows: seq<seq<string>>)
    ensures forall i, j :: 0 <= i < j < |Subjects(subjectRows)| ==>
      FirstIndex(Flatten(subjectRows), Subjects(subjectRows)[i]) < FirstIndex(Flatten(subjectRows), Subjects(subjectRows)[j])
  {
    var cells := Flatten(subjectRows);
    var subjects := Subjects(subjectRows);
    SubjectMembers(subjectRows);
    forall i, j | 0 <= i < j < |subjects|
      ensures FirstIndex(cells, subjects[i]) < FirstIndex(cells, subjects[j])
    {
      FilterFirstIndex(cells, Truthy, subjects[i], subjects[j]);
    }
  }

  lemma DedupMembers(s: seq<string>)
    ensures forall x :: x in Dedup(s) <==> x in s
  {
    forall x | x in s ensures x in Dedup(s) {
      var k :| 0 <= k < |s| && s[k] == x;
    }
  }

  /** A string is a subject iff it is a non-empty cell of some subject row. */
  lemma SubjectCells(subjectRows: seq<seq<string>>, x: string)
    ensures x in Subjects(subjectRows) <==>
      x != "" && exists i, j :: 0 <= i < |subjectRows| && 0 <= j < |subjectRows[i]| && subjectRows[i][j] == x
  {
    SubjectsSpec(subjectRows);
    FlattenMembers(subjectRows, x);
  }

  /** The key as written in the environment has each line break spelled as
      a backslash followed by `n`. */
  predicate HasEscapedNewline(s: string) {
    exists i :: 0 <= i < |s| - 1 && s[i] == '\\' && s[i + 1] == 'n'
  }

  /** `key.replace(/\\n/g, '\n')`: each backslash-`n` pair, found left to
      right without overlapping, becomes a line break. */
  function UnescapeNewlines(s: string): (r: string)
    ensures |r| <= |s|
    ensures !HasEscapedNewline(s) ==> r == s
    decreases |s|
  {
    if |s| >= 2 && s[0] == '\\' && s[1] == 'n' then "\n" + UnescapeNewlines(s[2..])
    else if s == [] then ""
    else
      NoEscapeTail(s);
      [s[0]] + UnescapeNewlines(s[1..])
  }

  /** Dropping the first character cannot create a backslash-`n` pair. */
  lemma NoEscapeTail(s: string)
    requires s != []
    ensures !HasEscapedNewline(s) ==> !HasEscapedNewline(s[1..])
  {
    var rest := s[1..];
    if HasEscapedNewline(rest) {
      var i :| 0 <= i < |rest| - 1 && rest[i] == '\\' && rest[i + 1] == 'n';
      assert s[i + 1] == rest[i] && s[i + 2] == rest[i + 1];
    }
  }

  /** The inverse direction: every line break spelled as backslash-`n`. */
  function EscapeNewlines(s: string): (r: string)
    decreases |s|
  {
    if s == [] then ""
    else (if s[0] == '\n' then "\\n" else [s[0]]) + EscapeNewlines(s[1..])
  }

  /** The rewritten key starts with `n` exactly when the key does. */
  lemma {:induction false} UnescapeHead(s: string)
    ensures |UnescapeNewlines(s)| > 0 <==> |s| > 0
    ensures |s| > 0 ==> (UnescapeNewlines(s)[0] == 'n' <==> s[0] == 'n')
  {
  }

  /** No backslash-`n` pair survives the rewrite. */
  lemma {:induction false} UnescapeLeavesNoEscape(s: string)
    ensures !HasEscapedNewline(UnescapeNewlines(s))
    decreases |s|
  {
    var r := UnescapeNewlines(s);
    if |s| >= 2 && s[0] == '\\' && s[1] == 'n' {
      UnescapeLeavesNoEscape(s[2..]);
      NoEscapeCons('\n', UnescapeNewlines(s[2..]));
    } else if s != [] {
      UnescapeLeavesNoEscape(s[1..]);
      var rest := UnescapeNewlines(s[1..]);
      if s[0] == '\\' && rest != [] {
        UnescapeHead(s[1..]);
        assert rest[0] != 'n';
      }
      NoEscapeCons(s[0], rest);
    }
  }

  lemma NoEscapeCons(c: char, rest: string)
    requires !HasEscapedNewline(rest)
    requires c == '\\' && rest != [] ==> rest[0] != 'n'
    ensures !HasEscapedNewline([c] + rest)
  {
    var s := [c] + rest;
    forall i | 0 <= i < |s| - 1
      ensures !(s[i] == '\\' && s[i + 1] == 'n')
    {
      if i > 0 {
        assert s[i] == rest[i - 1] && s[i + 1] == rest[i];
      }
    }
  }

  /** A key that was escaped from a key without backslash-`n` pairs comes
      back unchanged: the rewrite undoes the environment's spelling. */
  lemma {:induction false} UnescapeEscape(s: string)
    requires !HasEscapedNewline(s)
    ensures UnescapeNewlines(EscapeNewlines(s)) == s
    decreases |s|
  {
    if s != [] {
      var rest := s[1..];
      NoEscapeTail(s);
      UnescapeEscape(rest);
      var e := EscapeNewlines(rest);
      assert EscapeNewlines(s) == (if s[0] == '\n' then "\\n" else [s[0]]) + e;
      if s[0] == '\n' {
        assert ("\\n" + e)[2..] == e;
      } else {
        assert ([s[0]] + e)[1..] == e;
        if s[0] == '\\' && e != [] {
          assert rest[0] != 'n';
          EscapeHead(rest);
        }
      }
    }
  }

  lemma EscapeHead(s: string)
    requires s != []
    ensures EscapeNewlines(s) != [] && (EscapeNewlines(s)[0] == 'n' <==> s[0] == 'n')
  {
  }

  /** The environment the handler reads: the service-account email and the
      private key, either of which may be unset. */
  datatype Env = Env(clientEmail: Option<string>, privateKey: Option<string>)

  /** What the Google client is built with. */
  datatype Credentials = Credentials(clientEmail: Option<string>, privateKey: string)

  /** The outcome of authenticating and reading both ranges: the `values` of
      the tool range and the subject range (each absent when the range is
      empty), or the message of the error the first failing step threw. */
  datatype SheetReads =
    | Values(rows: Option<seq<seq<string>>>, subjectRows: Option<seq<seq<string>>>)
    | Thrown(message: string)

  /** The JSON body and status the handler returns. */
  datatype Response = Response(status: int, tools: seq<ToolRecord>, subjects: seq<string>, error: Option<string>)

  /** The message of the TypeError that calling `replace` on an unset key throws. */
  const MissingKeyMessage: string := "Cannot read properties of undefined (reading 'replace')"

  /** The catch block's response. */
  function ErrorResponse(message: string): Response {
    Response(500, [], [], Some(message))
  }

  /** The handler once the reads are done. */
  function Respond(outcome: SheetReads): (resp: Response)
    ensures outcome.Thrown? ==> resp == ErrorResponse(outcome.message)
    ensures outcome.Values? ==> resp.status == 200 && resp.error == None
    ensures outcome.Values? && (outcome.rows == None || outcome.rows == Some([])) ==>
      resp.tools == [] && resp.subjects == []
    ensures outcome.Values? && outcome.rows.Some? && outcome.rows.value != [] ==>
      && |resp.tools| == |outcome.rows.value|
      && (forall i :: 0 <= i < |resp.tools| ==> resp.tools[i] == ToRecord(outcome.rows.value[i]))
      && resp.subjects == Subjects(outcome.subjectRows.GetOr([]))
  {
    match outcome
    case Thrown(message) => ErrorResponse(message)
    case Values(rows, subjectRowsRead) =>
      var subjectRows := subjectRowsRead.GetOr([]);
      if rows.None? || rows.value == [] then Response(200, [], [], None)
      else Response(200, ToRecords(rows.value), Subjects(subjectRows), None)
  }

  /** `GET()`: the key is rewritten before anything else, so an unset key
      fails before the client is built; otherwise the client is built from
      the rewritten key and its reads decide the response. Failure is all or
      nothing: an error response carries no tools and no subjects, and a
      response has an error exactly when its status is 500. */
  function Get(env: Env, sheets: Credentials -> SheetReads): (resp: Response)
    ensures resp.error.Some? <==> resp.status == 500
    ensures resp.error.None? <==> resp.status == 200
    ensures resp.error.Some? ==> resp.tools == [] && resp.subjects == []
    ensures env.privateKey.None? ==> resp == ErrorResponse(MissingKeyMessage)
    ensures env.privateKey.Some? ==>
      resp == Respond(sheets(Credentials(env.clientEmail, UnescapeNewlines(env.privateKey.value))))
  {
    match env.privateKey
    case None => ErrorResponse(MissingKeyMessage)
    case Some(key) => Respond(sheets(Credentials(env.clientEmail, UnescapeNewlines(key))))
  }

  /** With no tool rows, the response is empty whatever the subject range holds. */
  lemma NoRowsNoSubjects(rows: Option<seq<seq<string>>>, subjectRows: Option<seq<seq<string>>>)
    requires rows == None || rows == Some([])
    ensures Respond(Values(rows, subjectRows)) == Response(200, [], [], None)
  {
  }

  /** An absent subject range reads as an empty list of rows. */
  lemma MissingSubjectRange(rows: Option<seq<seq<string>>>)
    ensures Respond(Values(rows, None)) == Respond(Values(rows, Some([])))
  {
  }

  /** A short row gets empty strings for its missing cells. */
  lemma ShortRowExample()
    ensures ToRecord(["ToolX", "http://x", "Al"]) == ToolRecord("ToolX", "http://x", "Al", "", "", "", "", "")
  {
  }

  /** Empty cells are dropped and repeats kept at their first occurrence. */
  lemma SubjectsExample()
    ensures Subjects([["AI"], ["ML"], [""], ["AI"]]) == ["AI", "ML"]
  {
    var rows := [["AI"], ["ML"], [""], ["AI"]];
    assert Flatten(rows) == ["AI", "ML", "", "AI"] by {
      assert rows[1..][1..][1..][1..] == [];
    }
    assert Filter(["AI", "ML", "", "AI"], Truthy) == ["AI", "ML", "AI"] by {
      assert ["AI", "ML", "", "AI"][1..] == ["ML", "", "AI"];
      assert ["ML", "", "AI"][1..] == ["", "AI"];
      assert ["", "AI"][1..] == ["AI"];
    }
    DedupExample();
  }

  lemma DedupExample()
    ensures Dedup(["AI", "ML", "AI"]) == ["AI", "ML"]
  {
    var kept := ["AI", "ML", "AI"];
    assert kept[..2] == ["AI", "ML"] && kept[..2][..1] == ["AI"] && kept[..2][..1][..0] == [];
    assert Dedup(["AI"]) == ["AI"];
    assert Dedup(["AI", "ML"]) == ["AI", "ML"];
  }
}
