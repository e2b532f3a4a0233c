/** The column check the uploader applies to the rows the spreadsheet
    decoder yields, before handing them to the application
    (components/FileUploader.tsx). */
module FileUploader {
  import opened Seqs
  import opened Strings
  import opened Types

  /** A decoded row: column name to cell. A key the row lacks is absent. */
  type Row = map<string, Cell>

  /** The mandatory columns, in the order the error message lists them. */
  const RequiredColumns: seq<string> := [
    "NAME (ENG)", "NAME (AR)", "G", "NATIONALITY",
    "ID#", "EMP#", "COMPANY", "POSITION",
    "MRN", "LOCATION", "SourceSheet"
  ]

  datatype UploadError = EmptyFile | MissingColumns(columns: seq<string>)

  datatype Checked = Accepted(rows: seq<Row>) | Rejected(error: UploadError)

  /** The list holds eleven distinct names. */
  lemma RequiredColumnsAreDistinct()
    ensures |RequiredColumns| == 11 && NoDuplicates(RequiredColumns)
  {
  }

  function LacksColumn(row: Row): string -> bool {
    col => col !in row
  }

  /** `requiredColumns.filter(col => !(col in firstRow))`. */
  function AbsentColumns(first: Row): (missing: seq<string>)
    ensures forall c :: c in missing <==> c in RequiredColumns && c !in first
    ensures IsSubsequence(missing, RequiredColumns)
  {
    FilterIsSubsequence(LacksColumn(first), RequiredColumns);
    Filter(LacksColumn(first), RequiredColumns)
  }

  /** Every required column is a key of the row. */
  ghost predicate HasRequiredColumns(row: Row) {
    forall c :: c in RequiredColumns ==> c in row
  }

  /** No column is reported missing exactly when the row has all of them. */
  lemma NoAbsentColumnsIff(row: Row)
    ensures AbsentColumns(row) == [] <==> HasRequiredColumns(row)
  {
    var missing := AbsentColumns(row);
    if missing != [] {
      assert missing[0] in missing;
    }
  }

  /** The check run on the decoded rows: an empty sheet is rejected, a first
      row lacking a required key is rejected with the missing names, and
      anything else is accepted unchanged. Only the first row is inspected,
      and a key counts as present whatever its value. */
  function CheckRows(rows: seq<Row>): (r: Checked)
    ensures rows == [] <==> r == Rejected(EmptyFile)
    ensures r.Accepted? <==> rows != [] && HasRequiredColumns(rows[0])
    ensures r.Accepted? ==> r.rows == rows
    ensures r.Rejected? && rows != [] ==>
      r.error.MissingColumns? && r.error.columns != [] &&
      r.error.columns == AbsentColumns(rows[0])
  {
    if |rows| > 0 then
      var missing := AbsentColumns(rows[0]);
      NoAbsentColumnsIff(rows[0]);
      if |missing| > 0 then Rejected(MissingColumns(missing))
      else Accepted(rows)
    else
      Rejected(EmptyFile)
  }

  /** Acceptance depends on the first row alone: the later rows may hold anything. */
  lemma OnlyFirstRowChecked(rows: seq<Row>, others: seq<Row>)
    requires rows != [] && CheckRows(rows).Accepted?
    ensures CheckRows([rows[0]] + others) == Accepted([rows[0]] + others)
  {
  }

  /** A required key that is present but empty does not make the row fail. */
  lemma PresentEmptyValueAccepted(first: Row, col: string)
    requires col in RequiredColumns && col in first && first[col] == Text("")
    ensures col !in AbsentColumns(first)
  {
  }

  const EmptyFileMessage := "The file is empty or contains no valid data."
  const MissingColumnsPrefix := "The file lacks the following mandatory columns: "

  /** The text shown for a rejection: the missing names joined by ", ". */
  function Describe(e: UploadError): string {
    match e
    case EmptyFile => EmptyFileMessage
    case MissingColumns(cols) => MissingColumnsPrefix + Join(cols, ", ")
  }

  /** The text for missing columns names each of them. */
  lemma DescribeNamesEach(cols: seq<string>, c: string)
    requires c in cols
    ensures Contains(Describe(MissingColumns(cols)), c)
  {
    var i :| 0 <= i < |cols| && cols[i] == c;
    JoinContainsEach(cols, ", ", i);
    ContainsAppendLeft(MissingColumnsPrefix, Join(cols, ", "), c);
  }

  /** The rejection message names every missing column. */
  lemma DescribeNamesEachMissingColumn(rows: seq<Row>, c: string)
    requires rows != [] && c in RequiredColumns && c !in rows[0]
    ensures CheckRows(rows).Rejected?
    ensures Contains(Describe(CheckRows(rows).error), c)
  {
    var cols := AbsentColumns(rows[0]);
    assert c in cols;
    DescribeNamesEach(cols, c);
  }

  /** Reads a column whose declared type is `string | number`, or the region tag. */
  function CellColumn(row: Row, key: string): Cell {
    if key in row then row[key] else Missing
  }

  /** Reads a column whose declared type is `string`: a number becomes its
      decimal text, an absent or undefined cell the empty string. */
  function TextColumn(row: Row, key: string): string {
    match CellColumn(row, key)
    case Text(s) => s
    case Number(n) => DecimalString(n)
    case Missing => ""
  }

  /** The cast `data as Employee[]` made explicit for one accepted row. */
  function ToEmployee(row: Row): (e: Employee)
    ensures "ID#" in row ==> e.idNumber == row["ID#"]
    ensures "EMP#" in row ==> e.empNumber == row["EMP#"]
    ensures "MRN" in row ==> e.mrn == row["MRN"]
    ensures "SourceSheet" in row ==> e.sourceSheet == row["SourceSheet"]
    ensures "SourceSheet" !in row ==> !Truthy(e.sourceSheet)
    ensures "NAME (ENG)" in row && row["NAME (ENG)"].Text? ==> e.nameEnglish == row["NAME (ENG)"].text
    ensures "NAME (AR)" in row && row["NAME (AR)"].Text? ==> e.nameArabic == row["NAME (AR)"].text
    ensures "G" in row && row["G"].Text? ==> e.gender == row["G"].text
    ensures "NATIONALITY" in row && row["NATIONALITY"].Text? ==> e.nationality == row["NATIONALITY"].text
    ensures "COMPANY" in row && row["COMPANY"].Text? ==> e.company == row["COMPANY"].text
    ensures "POSITION" in row && row["POSITION"].Text? ==> e.position == row["POSITION"].text
    ensures "LOCATION" in row && row["LOCATION"].Text? ==> e.location == row["LOCATION"].text
  {
    Employee(
      TextColumn(row, "NAME (ENG)"), TextColumn(row, "NAME (AR)"), TextColumn(row, "G"),
      TextColumn(row, "NATIONALITY"), CellColumn(row, "ID#"), CellColumn(row, "EMP#"),
      TextColumn(row, "COMPANY"), TextColumn(row, "POSITION"), CellColumn(row, "MRN"),
      TextColumn(row, "LOCATION"), CellColumn(row, "SourceSheet"))
  }
}
