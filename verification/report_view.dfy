/** The regional ledger (components/ReportView.tsx): the region selected on
    opening, the rows of the selected region, its three figures and the
    search box filter. The selected region and the search term are inputs. */
module ReportView {
  import opened Seqs
  import opened Strings
  import opened Types
  import opened App

  /** `validationTable[0]?.name || ''`: the first region when there is one
      with a truthy name, otherwise the empty string. */
  function InitialRegion(v: ValidationState): Cell {
    if |v.validationTable| > 0 && Truthy(v.validationTable[0].name) then
      v.validationTable[0].name
    else
      Text("")
  }

  /** The first region name is the region of the first tagged row. */
  lemma FirstRegionIsFirstTaggedRow(data: seq<Employee>, k: nat)
    requires k < |data| && Truthy(data[k].sourceSheet)
    requires forall i :: 0 <= i < k ==> !Truthy(data[i].sourceSheet)
    ensures RegionNames(data) != [] && RegionNames(data)[0] == data[k].sourceSheet
  {
    var sheets := SourceSheets(data);
    var names := RegionNames(data);
    var s0 := data[k].sourceSheet;
    assert sheets[k] == s0;
    assert s0 in names;
    var j :| 0 <= j < |names| && names[j] == s0;
    var m := IndexOf(sheets, names[0]);
    assert forall i :: 0 <= i < k ==> !Truthy(sheets[i]);
    assert m >= k;
    IndexOfAtMost(sheets, s0, k);
    assert j == 0;
  }

  /** After validation the report opens on the region of the first tagged row,
      and that row is in the region's ledger. */
  lemma InitialRegionIsFirstTaggedRow(data: seq<Employee>, k: nat)
    requires k < |data| && Truthy(data[k].sourceSheet)
    requires forall i :: 0 <= i < k ==> !Truthy(data[i].sourceSheet)
    ensures InitialRegion(Validate(data)) == data[k].sourceSheet
    ensures data[k] in RowsForRegion(data, InitialRegion(Validate(data)))
  {
    FirstRegionIsFirstTaggedRow(data, k);
    var t := Validate(data).validationTable;
    assert Map(NameOf, t)[0] == t[0].name;
  }

  /** With no tagged row the report opens on the empty region name. */
  lemma InitialRegionWithoutRegions(data: seq<Employee>)
    requires forall e :: e in data ==> !Truthy(e.sourceSheet)
    ensures InitialRegion(Validate(data)) == Text("")
  {
    var sheets := SourceSheets(data);
    var names := RegionNames(data);
    assert forall i :: 0 <= i < |sheets| ==> !Truthy(sheets[i]) by {
      forall i | 0 <= i < |sheets| ensures !Truthy(sheets[i]) {
        assert data[i] in data;
      }
    }
    assert forall c :: c in sheets ==> !Truthy(c);
    assert ToSet(names) == {};
    NoDuplicatesCardinality(names);
    assert |Validate(data).validationTable| == 0;
  }

  /** The three figures above the ledger. */
  datatype LedgerStats = LedgerStats(total: nat, locations: nat, supervisors: nat)

  function LocationOf(e: Employee): string { e.location }

  /** A position is supervisory when its lower-cased text contains
      "supervisor", "lead" or "manager" anywhere. */
  predicate IsSupervisory(position: string) {
    var p := Lower(position);
    Contains(p, "supervisor") || Contains(p, "lead") || Contains(p, "manager")
  }

  function Supervisory(): Employee -> bool {
    (e: Employee) => IsSupervisory(e.position)
  }

  /** `stats`: the row count, the number of distinct locations and the number
      of rows holding a supervisory position. */
  function Stats(rows: seq<Employee>): (s: LedgerStats)
    ensures s.total == |rows|
    ensures s.locations == |set e | e in rows :: LocationOf(e)|
    ensures s.locations <= s.total
    ensures rows != [] ==> s.locations >= 1
    ensures s.supervisors == |set i: nat | i < |rows| && IsSupervisory(rows[i].position)|
    ensures s.supervisors <= s.total
    ensures s.supervisors == 0 <==> forall e :: e in rows ==> !IsSupervisory(e.position)
    ensures s.supervisors == s.total <==> forall e :: e in rows ==> IsSupervisory(e.position)
  {
    MapToSet(LocationOf, rows);
    assert ToSet(Map(LocationOf, rows)) == set e | e in rows :: LocationOf(e);
    var supervisors := Filter(Supervisory(), rows);
    FilterAllIff(Supervisory(), rows);
    FilterCountsPositions(Supervisory(), rows);
    assert Positions(Supervisory(), rows) == set i: nat | i < |rows| && IsSupervisory(rows[i].position);
    assert supervisors != [] ==> supervisors[0] in supervisors;
    LedgerStats(|rows|, SetSize(Map(LocationOf, rows)), |supervisors|)
  }

  /** The figures of any region of the validation table: the ledger holds at
      least as many rows as the table's headcount of distinct EMP# values,
      and at least one location. */
  lemma LedgerStatsCoverHeadcount(data: seq<Employee>, i: nat)
    requires i < |Validate(data).validationTable|
    ensures var row := Validate(data).validationTable[i];
      var s := Stats(RowsForRegion(data, row.name));
      s.total >= row.count >= 1 && s.locations >= 1
  {
    HeadcountBounds(data, i);
  }

  /** The matching test of the search box for a lower-cased, non-empty term:
      the lower-cased English name, the EMP# text, the ID# text or the
      lower-cased nationality contains the term. EMP# and ID# are compared
      as they are, without folding case; an absent EMP# or ID# does not match. */
  predicate Matches(e: Employee, s: string) {
    || Contains(Lower(e.nameEnglish), s)
    || (!e.empNumber.Missing? && Contains(JsString(e.empNumber), s))
    || (!e.idNumber.Missing? && Contains(JsString(e.idNumber), s))
    || Contains(Lower(e.nationality), s)
  }

  function MatchesTerm(s: string): Employee -> bool {
    (e: Employee) => Matches(e, s)
  }

  /** `filteredData`, with the absent EMP# guarded as ID# is: an empty term
      keeps the ledger, any other term keeps, in order, exactly the rows that
      match its lower-cased form. */
  function Search(rows: seq<Employee>, term: string): (r: seq<Employee>)
    ensures term == "" ==> r == rows
    ensures IsSubsequence(r, rows)
    ensures |r| <= |rows|
    ensures term != "" ==> forall e :: e in r <==> e in rows && Matches(e, Lower(term))
    ensures term != "" ==> forall e ::
      multiset(r)[e] == if Matches(e, Lower(term)) then multiset(rows)[e] else 0
  {
    if term == "" then
      IsSubsequenceRefl(rows);
      rows
    else
      FilterIsSubsequence(MatchesTerm(Lower(term)), rows);
      FilterMultiplicity(MatchesTerm(Lower(term)), rows);
      Filter(MatchesTerm(Lower(term)), rows)
  }

  /** Every sequence is a subsequence of itself. */
  lemma {:induction false} IsSubsequenceRefl(s: seq<Employee>)
    ensures IsSubsequence(s, s)
  {
    if s != [] {
      IsSubsequenceRefl(s[1..]);
    }
  }

  /** The search folds the case of the term: a term and its lower-cased form
      select the same rows. */
  lemma SearchIgnoresTermCase(rows: seq<Employee>, term: string)
    ensures Search(rows, term) == Search(rows, Lower(term))
  {
    LowerIdempotent(term);
  }

  /** The search never leaves the selected region. */
  lemma SearchStaysInRegion(data: seq<Employee>, region: Cell, term: string)
    ensures forall e :: e in Search(RowsForRegion(data, region), term) ==>
      e in data && e.sourceSheet == region
  {
  }

  /** EMP# and ID# are compared without folding case: an ID# written in
      capitals never matches a non-empty term, whatever the term's case, so
      such a row is found through its name, EMP# or nationality or not at all. */
  lemma CapitalIdNeverMatches(e: Employee, term: string)
    requires e.idNumber.Text? && AllCapitals(e.idNumber.text) && term != ""
    ensures !Contains(JsString(e.idNumber), Lower(term))
    ensures Matches(e, Lower(term)) <==>
      || Contains(Lower(e.nameEnglish), Lower(term))
      || (!e.empNumber.Missing? && Contains(JsString(e.empNumber), Lower(term)))
      || Contains(Lower(e.nationality), Lower(term))
  {
    CapitalsExcludeLowered(e.idNumber.text, term);
  }

  /** The test of the search box as written: the English name is tried first;
      when it fails, `EMP#.toString()` is evaluated, which throws on an absent
      EMP# (modelled as `None`). */
  function MatchesAsWritten(e: Employee, s: string): Option<bool> {
    if Contains(Lower(e.nameEnglish), s) then Some(true)
    else if e.empNumber.Missing? then None
    else Some(Matches(e, s))
  }

  /** The filter as written: `None` when the test throws on some row. */
  function FilterAsWritten(rows: seq<Employee>, s: string): Option<seq<Employee>> {
    if rows == [] then Some([])
    else
      match MatchesAsWritten(rows[0], s)
      case None => None
      case Some(keep) =>
        match FilterAsWritten(rows[1..], s)
        case None => None
        case Some(rest) => Some(if keep then [rows[0]] + rest else rest)
  }

  /** `filteredData` as written. */
  function SearchAsWritten(rows: seq<Employee>, term: string): Option<seq<Employee>> {
    if term == "" then Some(rows) else FilterAsWritten(rows, Lower(term))
  }

  /** A row the name test does not take and whose EMP# is absent. */
  ghost predicate Throws(e: Employee, s: string) {
    e.empNumber.Missing? && !Contains(Lower(e.nameEnglish), s)
  }

  lemma {:induction false} FilterAsWrittenFails(rows: seq<Employee>, s: string)
    ensures FilterAsWritten(rows, s).None? <==> exists e :: e in rows && Throws(e, s)
  {
    if rows != [] {
      var rest := rows[1..];
      assert rows == [rows[0]] + rest;
      FilterAsWrittenFails(rest, s);
      if exists e :: e in rest && Throws(e, s) {
        var e :| e in rest && Throws(e, s);
        assert e in rows;
      }
      if Throws(rows[0], s) {
        assert rows[0] in rows;
      }
    }
  }

  /** The search as written throws exactly when the term is not empty and some
      row of the ledger has no EMP# and a name that does not contain the term. */
  lemma SearchAsWrittenFails(rows: seq<Employee>, term: string)
    ensures SearchAsWritten(rows, term).None? <==>
      term != "" && exists e :: e in rows && Throws(e, Lower(term))
  {
    if term != "" {
      FilterAsWrittenFails(rows, Lower(term));
    }
  }

  lemma {:induction false} FilterAsWrittenAgrees(rows: seq<Employee>, s: string)
    requires forall e :: e in rows ==> !e.empNumber.Missing?
    ensures FilterAsWritten(rows, s) == Some(Filter(MatchesTerm(s), rows))
  {
    if rows != [] {
      FilterAsWrittenAgrees(rows[1..], s);
      assert rows[0] in rows;
      assert MatchesAsWritten(rows[0], s) == Some(Matches(rows[0], s));
      assert MatchesTerm(s)(rows[0]) == Matches(rows[0], s);
      var rest := Filter(MatchesTerm(s), rows[1..]);
      assert [] + rest == rest;
    }
  }

  /** Where every row of the ledger has an EMP#, the search as written and the
      guarded search return the same rows. */
  lemma SearchAsWrittenAgrees(rows: seq<Employee>, term: string)
    requires forall e :: e in rows ==> !e.empNumber.Missing?
    ensures SearchAsWritten(rows, term) == Some(Search(rows, term))
  {
    if term != "" {
      FilterAsWrittenAgrees(rows, Lower(term));
    }
  }

  /** One row named "x" without an EMP#: the term "zz" makes the search as
      written throw, while the guarded search returns no rows. */
  lemma SearchAsWrittenThrowsOnAbsentEmpNumber(e: Employee)
    requires e == Employee("x", "", "", "", Missing, Missing, "", "", Missing, "", Text("R"))
    ensures SearchAsWritten([e], "zz") == None
    ensures Search([e], "zz") == []
  {
    assert Lower("zz") == "zz";
    assert !Contains("x", "zz");
    assert !Contains("", "zz");
    assert !Matches(e, "zz");
  }
}
