/** The application shell (App.tsx): the aggregation that turns accepted rows
    into a per-region validation state, and the session that holds the rows,
    that state and the current step. */
module App {
  import opened Seqs
  import opened Strings
  import opened Types
  import opened FileUploader

  function SheetOf(e: Employee): Cell { e.sourceSheet }
  function EmpNumberOf(e: Employee): Cell { e.empNumber }
  function NameOf(r: RegionValidation): Cell { r.name }

  /** `data.map(d => d.SourceSheet)`. */
  function SourceSheets(data: seq<Employee>): seq<Cell> {
    Map(SheetOf, data)
  }

  /** `Array.from(new Set(data.map(d => d.SourceSheet))).filter(Boolean)`:
      the distinct truthy region tags, in the order they are first seen. */
  function RegionNames(data: seq<Employee>): (names: seq<Cell>)
    ensures NoDuplicates(names)
    ensures forall c :: c in names <==> c in SourceSheets(data) && Truthy(c)
    ensures InFirstSeenOrder(names, SourceSheets(data))
  {
    var sheets := SourceSheets(data);
    DistinctFirstSeenOrder(sheets);
    FilterKeepsFirstSeenOrder(Truthy, Distinct(sheets), sheets);
    FilterNoDuplicates(Truthy, Distinct(sheets));
    Filter(Truthy, Distinct(sheets))
  }

  function InRegion(name: Cell): Employee -> bool {
    (e: Employee) => e.sourceSheet == name
  }

  /** `data.filter(emp => emp.SourceSheet === name)`: a subsequence of rows
      with the tag, as long as the number of positions holding it, hence all
      of them in their original order. The dashboard (`getRegionEmployees`)
      and the report (`regionalEmployees`) run the same filter. */
  function RowsForRegion(data: seq<Employee>, name: Cell): (rows: seq<Employee>)
    ensures forall e :: e in rows <==> e in data && e.sourceSheet == name
    ensures |rows| == |set i: nat | i < |data| && data[i].sourceSheet == name|
    ensures IsSubsequence(rows, data)
  {
    FilterIsSubsequence(InRegion(name), data);
    FilterCountsPositions(InRegion(name), data);
    assert Positions(InRegion(name), data) == set i: nat | i < |data| && data[i].sourceSheet == name;
    Filter(InRegion(name), data)
  }

  /** The employee numbers of a region's rows, as a set. */
  lemma RegionEmpNumbers(data: seq<Employee>, name: Cell)
    ensures ToSet(Map(EmpNumberOf, RowsForRegion(data, name))) ==
      set e | e in data && e.sourceSheet == name :: e.empNumber
  {
    var rows := RowsForRegion(data, name);
    MapToSet(EmpNumberOf, rows);
    var a := set e | e in rows :: EmpNumberOf(e);
    var b := set e | e in data && e.sourceSheet == name :: e.empNumber;
    forall y | y in b ensures y in a {
      var e :| e in data && e.sourceSheet == name && e.empNumber == y;
      assert e in rows;
    }
    forall y | y in a ensures y in b {
      var e :| e in rows && EmpNumberOf(e) == y;
      assert e in data && e.sourceSheet == name;
    }
  }

  /** `new Set(regionEmployees.map(d => d["EMP#"])).size`: the number of
      distinct employee numbers among the rows of a region. */
  function Headcount(data: seq<Employee>, name: Cell): (n: nat)
    ensures n == |set e | e in data && e.sourceSheet == name :: e.empNumber|
    ensures n <= |RowsForRegion(data, name)|
    ensures name in SourceSheets(data) ==> n >= 1
  {
    var rows := RowsForRegion(data, name);
    RegionEmpNumbers(data, name);
    assert name in SourceSheets(data) ==> rows != [] by {
      if name in SourceSheets(data) {
        var k :| 0 <= k < |data| && SourceSheets(data)[k] == name;
        assert data[k] in rows;
      }
    }
    SetSize(Map(EmpNumberOf, rows))
  }

  function TableRow(data: seq<Employee>): Cell -> RegionValidation {
    name => RegionValidation(name, Headcount(data, name))
  }

  /** `uniqueRegions.map(name => ({ name, count }))`. */
  function Table(data: seq<Employee>, names: seq<Cell>): (t: seq<RegionValidation>)
    ensures |t| == |names|
    ensures Map(NameOf, t) == names
    ensures forall i :: 0 <= i < |t| ==> t[i].name == names[i] && t[i].count == Headcount(data, names[i])
  {
    var t := Map(TableRow(data), names);
    assert Map(NameOf, t) == names;
    t
  }

  /** `uniqueRegions.map((name, index) => ({ id: index + 1, name }))`. */
  function References(names: seq<Cell>): (r: seq<RegionReference>)
    ensures |r| == |names|
    ensures forall i :: 0 <= i < |r| ==> r[i] == RegionReference(i + 1, names[i])
  {
    seq(|names|, i requires 0 <= i < |names| => RegionReference(i + 1, names[i]))
  }

  function IsUntagged(e: Employee): bool { !Truthy(e.sourceSheet) }

  /** `data.filter(d => !d.SourceSheet)`: a subsequence of untagged rows as
      long as the number of untagged positions, hence all of them in order. */
  function UntaggedRows(data: seq<Employee>): (rows: seq<Employee>)
    ensures forall e :: e in rows <==> e in data && !Truthy(e.sourceSheet)
    ensures |rows| == |set i: nat | i < |data| && !Truthy(data[i].sourceSheet)|
    ensures IsSubsequence(rows, data)
  {
    FilterIsSubsequence(IsUntagged, data);
    FilterCountsPositions(IsUntagged, data);
    assert Positions(IsUntagged, data) == set i: nat | i < |data| && !Truthy(data[i].sourceSheet);
    Filter(IsUntagged, data)
  }

  /** The integrity finding for `n` rows without a region tag. */
  function UntaggedMessage(n: nat): (msg: string)
    ensures Contains(msg, DecimalString(n))
  {
    ContainsMiddle("Detected ", DecimalString(n), " employees without an approved operational region.");
    "Detected " + DecimalString(n) + " employees without an approved operational region."
  }

  /** The error list: one finding when some row has no region tag. */
  function Errors(data: seq<Employee>): (errors: seq<string>)
    ensures errors == [] <==> forall e :: e in data ==> Truthy(e.sourceSheet)
    ensures errors != [] ==> errors == [UntaggedMessage(|UntaggedRows(data)|)]
  {
    var untagged := UntaggedRows(data);
    FilterEmptyIff(IsUntagged, data);
    if |untagged| > 0 then [UntaggedMessage(|untagged|)] else []
  }

  /** The state `handleDataLoaded` computes from the accepted rows. */
  function Validate(data: seq<Employee>): (v: ValidationState)
    ensures v.totalRegions == |v.regions| == |v.validationTable|
    ensures Map(NameOf, v.validationTable) == RegionNames(data)
    ensures forall i :: 0 <= i < |v.regions| ==>
      v.regions[i] == RegionReference(i + 1, v.validationTable[i].name)
    ensures forall i :: 0 <= i < |v.validationTable| ==>
      v.validationTable[i].count == Headcount(data, v.validationTable[i].name)
    ensures v.isValid <==> v.errors == []
    ensures v.isValid <==> forall e :: e in data ==> Truthy(e.sourceSheet)
    ensures |v.errors| <= 1
    ensures v.errors != [] ==> Contains(v.errors[0], DecimalString(|UntaggedRows(data)|))
  {
    var names := RegionNames(data);
    var errors := Errors(data);
    ValidationState(errors == [], References(names), Table(data, names), |names|, errors)
  }

  /** Every region in the table holds between one and its raw row count of
      distinct employee numbers. */
  lemma HeadcountBounds(data: seq<Employee>, i: nat)
    requires i < |Validate(data).validationTable|
    ensures var row := Validate(data).validationTable[i];
      1 <= row.count <= |RowsForRegion(data, row.name)|
  {
    var v := Validate(data);
    assert Map(NameOf, v.validationTable)[i] == NameOf(v.validationTable[i]);
    assert RegionNames(data)[i] in RegionNames(data);
  }

  /** The table's names, entry by entry, are the region names. */
  lemma TableNames(data: seq<Employee>)
    ensures var t := Validate(data).validationTable;
      |t| == |RegionNames(data)| && forall i :: 0 <= i < |t| ==> t[i].name == RegionNames(data)[i]
  {
    var t := Validate(data).validationTable;
    forall i | 0 <= i < |t| ensures t[i].name == RegionNames(data)[i] {
      assert Map(NameOf, t)[i] == NameOf(t[i]);
    }
  }

  /** A table whose names are the truthy values of `sheets`, each once, has
      exactly one entry for a truthy value of `sheets` and none for a falsy one. */
  lemma PartitionByNames(t: seq<RegionValidation>, names: seq<Cell>, sheets: seq<Cell>, c: Cell)
    requires |t| == |names| && forall i :: 0 <= i < |t| ==> t[i].name == names[i]
    requires NoDuplicates(names)
    requires forall x :: x in names <==> x in sheets && Truthy(x)
    requires c in sheets
    ensures !Truthy(c) <==> forall i :: 0 <= i < |t| ==> t[i].name != c
    ensures forall i, j :: 0 <= i < |t| && 0 <= j < |t| && t[i].name == c && t[j].name == c ==> i == j
  {
    assert forall i :: 0 <= i < |names| ==> names[i] in names;
  }

  /** The region table built from the region names partitions the tagged rows. */
  lemma TablePartition(data: seq<Employee>, e: Employee)
    requires e in data
    ensures var t := Table(data, RegionNames(data));
      !Truthy(e.sourceSheet) <==> forall i :: 0 <= i < |t| ==> t[i].name != e.sourceSheet
    ensures var t := Table(data, RegionNames(data));
      forall i, j :: 0 <= i < |t| && 0 <= j < |t| && t[i].name == e.sourceSheet && t[j].name == e.sourceSheet ==> i == j
  {
    var names, sheets := RegionNames(data), SourceSheets(data);
    var k :| 0 <= k < |data| && data[k] == e;
    assert sheets[k] == e.sourceSheet;
    PartitionByNames(Table(data, names), names, sheets, e.sourceSheet);
  }

  /** Each row either has no region tag or belongs to exactly one table entry. */
  lemma RowsPartitionIntoRegions(data: seq<Employee>, e: Employee)
    requires e in data
    ensures var t := Validate(data).validationTable;
      !Truthy(e.sourceSheet) <==> forall i :: 0 <= i < |t| ==> t[i].name != e.sourceSheet
    ensures var t := Validate(data).validationTable;
      forall i, j :: 0 <= i < |t| && 0 <= j < |t| && t[i].name == e.sourceSheet && t[j].name == e.sourceSheet ==> i == j
  {
    ValidationTableIsTable(data);
    TablePartition(data, e);
  }

  /** The table of a validation result is the table of the region names. */
  lemma ValidationTableIsTable(data: seq<Employee>)
    ensures Validate(data).validationTable == Table(data, RegionNames(data))
  {
  }

  /** The summed sizes of the per-region row lists. */
  function RegionRowTotal(data: seq<Employee>, names: seq<Cell>): nat {
    if names == [] then 0 else |RowsForRegion(data, names[0])| + RegionRowTotal(data, names[1..])
  }

  /** Adding one row adds one to the total of the region it belongs to, if any. */
  lemma {:induction false} RegionRowTotalCons(e: Employee, rest: seq<Employee>, names: seq<Cell>)
    requires NoDuplicates(names)
    ensures RegionRowTotal([e] + rest, names) ==
      RegionRowTotal(rest, names) + (if e.sourceSheet in names then 1 else 0)
  {
    if names != [] {
      var tail := names[1..];
      assert NoDuplicates(tail) by {
        forall i, j | 0 <= i < j < |tail| ensures tail[i] != tail[j] {
          assert tail[i] == names[i + 1] && tail[j] == names[j + 1];
        }
      }
      RegionRowTotalCons(e, rest, tail);
      assert ([e] + rest)[1..] == rest;
      assert names[0] !in tail;
      assert e.sourceSheet in names <==> e.sourceSheet == names[0] || e.sourceSheet in tail by {
        assert names == [names[0]] + tail;
      }
    }
  }

  /** Region rows and untagged rows together account for every row exactly once. */
  lemma {:induction false} RowCountsPartition(data: seq<Employee>, names: seq<Cell>)
    requires NoDuplicates(names)
    requires forall c :: c in names ==> Truthy(c)
    requires forall e :: e in data && Truthy(e.sourceSheet) ==> e.sourceSheet in names
    ensures RegionRowTotal(data, names) + |UntaggedRows(data)| == |data|
  {
    if data == [] {
      assert RegionRowTotal(data, names) == 0 by {
        ZeroTotal(names);
      }
    } else {
      var e, rest := data[0], data[1..];
      assert data == [e] + rest;
      RowCountsPartition(rest, names);
      RegionRowTotalCons(e, rest, names);
      assert UntaggedRows(data) == (if IsUntagged(e) then [e] else []) + UntaggedRows(rest);
    }
  }

  /** The base case of `RowCountsPartition`: with no rows every region list is
      empty, so the total is zero however many region names there are (the
      total recurses over the names, hence the induction). */
  lemma {:induction false} ZeroTotal(names: seq<Cell>)
    ensures RegionRowTotal([], names) == 0
  {
    if names != [] {
      ZeroTotal(names[1..]);
    }
  }

  /** Partition completeness for the computed table: the per-region row lists
      and the untagged rows add up to the whole input. */
  lemma ValidationCoversEveryRow(data: seq<Employee>)
    ensures RegionRowTotal(data, RegionNames(data)) + |UntaggedRows(data)| == |data|
  {
    var names := RegionNames(data);
    forall e | e in data && Truthy(e.sourceSheet) ensures e.sourceSheet in names {
      var k :| 0 <= k < |data| && data[k] == e;
      assert SourceSheets(data)[k] == e.sourceSheet;
    }
    RowCountsPartition(data, names);
  }

  /** What the main area renders for a step (App.tsx, lines 110-119). */
  datatype Screen =
    | UploaderScreen
    | SummaryScreen(validation: ValidationState)
    | DashboardScreen(data: seq<Employee>, validation: ValidationState)
    | ReportScreen(data: seq<Employee>, validation: ValidationState)
    | Blank

  /** The application state: the step, the rows and the validation result. */
  class Session {
    var step: AppStep
    var data: seq<Employee>
    var validation: Option<ValidationState>

    /** The validation result always describes the rows held, and a step
        that needs a (valid) result is only entered with one. */
    ghost predicate Valid()
      reads this
    {
      Consistent() && StepAllowed()
    }

    /** The validation result, when there is one, is that of the rows held. */
    ghost predicate Consistent()
      reads this`data, this`validation
    {
      && (validation.None? ==> data == [])
      && (validation.Some? ==> validation.value == Validate(data))
    }

    /** The step shown has the result it needs. */
    predicate StepAllowed()
      reads this
    {
      && (step == Validation ==> validation.Some?)
      && (step == Dashboard || step == Report ==> validation.Some? && validation.value.isValid)
    }

    /** Whether the navigation button for `target` is enabled. */
    predicate CanNavigate(target: AppStep)
      reads this
    {
      match target
      case Upload => true
      case Validation => validation.Some?
      case Dashboard => validation.Some? && validation.value.isValid
      case Report => validation.Some? && validation.value.isValid
    }

    /** The screen the main area renders. */
    function Shown(): Screen
      reads this
    {
      match step
      case Upload => UploaderScreen
      case Validation => if validation.Some? then SummaryScreen(validation.value) else Blank
      case Dashboard => if validation.Some? then DashboardScreen(data, validation.value) else Blank
      case Report => if validation.Some? then ReportScreen(data, validation.value) else Blank
    }

    constructor ()
      ensures Valid()
      ensures step == Upload && data == [] && validation == None
    {
      step := Upload;
      data := [];
      validation := None;
    }

    /** `handleDataLoaded`: store the rows and their validation, then show it. */
    method Load(loaded: seq<Employee>)
      modifies this
      ensures Valid()
      ensures data == loaded && validation == Some(Validate(loaded)) && step == Validation
    {
      data := loaded;
      validation := Some(Validate(loaded));
      step := Validation;
    }

    /** The uploader's check followed by `onDataLoaded`: a rejected sheet
        leaves the session untouched and yields the error shown. */
    method UploadFile(rows: seq<Row>) returns (error: Option<UploadError>)
      requires Valid()
      modifies this
      ensures Valid()
      ensures CheckRows(rows).Rejected? ==>
        error == Some(CheckRows(rows).error) &&
        step == old(step) && data == old(data) && validation == old(validation)
      ensures CheckRows(rows).Accepted? ==>
        error == None && step == Validation &&
        data == Map(ToEmployee, rows) && validation == Some(Validate(data))
    {
      var checked := CheckRows(rows);
      if checked.Rejected? {
        error := Some(checked.error);
      } else {
        Load(Map(ToEmployee, checked.rows));
        error := None;
      }
    }

    /** `reset`: back to the upload step with nothing loaded. */
    method Reset()
      modifies this
      ensures Valid()
      ensures step == Upload && data == [] && validation == None
    {
      step := Upload;
      data := [];
      validation := None;
    }

    /** A click on a navigation button: a disabled button does nothing, an
        enabled one changes the step and nothing else. */
    method Navigate(target: AppStep)
      requires Valid()
      modifies this
      ensures Valid()
      ensures step == (if old(CanNavigate(target)) then target else old(step))
      ensures data == old(data) && validation == old(validation)
    {
      if CanNavigate(target) {
        step := target;
      }
    }

    /** The summary's proceed button, rendered only when there are no errors. */
    method Proceed()
      requires Valid()
      modifies this
      ensures Valid()
      ensures old(step == Validation && validation.Some? && validation.value.errors == []) ==> step == Dashboard
      ensures !old(step == Validation && validation.Some? && validation.value.errors == []) ==> step == old(step)
      ensures data == old(data) && validation == old(validation)
    {
      if step == Validation && validation.Some? && validation.value.errors == [] {
        step := Dashboard;
      }
    }
  }

  /** In every reachable state the main area shows something, and the
      dashboard and report only ever show a valid result for the rows held. */
  lemma ShownScreenIsGuarded(s: Session)
    requires s.Valid()
    ensures s.Shown() != Blank
    ensures s.Shown().DashboardScreen? || s.Shown().ReportScreen? ==>
      s.Shown().validation.isValid && s.Shown().validation == Validate(s.Shown().data)
  {
    match s.step
    case Upload =>
    case Validation =>
      assert s.validation.Some?;
    case Dashboard =>
      assert s.Shown() == DashboardScreen(s.data, s.validation.value);
    case Report =>
      assert s.Shown() == ReportScreen(s.data, s.validation.value);
  }
}
