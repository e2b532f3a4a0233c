/** The dashboard's figures (components/Dashboard.tsx): distinct identity
    numbers, the five most frequent nationalities and the number of companies. */
module DashboardView {
  import opened Seqs
  import opened Strings
  import opened Types

  function IdKey(e: Employee): string { JsString(e.idNumber) }
  function NationalityOf(e: Employee): string { e.nationality }
  function CompanyOf(e: Employee): string { e.company }

  /** `new Set(data.map(d => String(d["ID#"]))).size`. */
  function TotalEmployees(data: seq<Employee>): (n: nat)
    ensures n == |set e | e in data :: IdKey(e)|
    ensures n <= |data|
    ensures data != [] ==> n >= 1
  {
    MapToSet(IdKey, data);
    assert ToSet(Map(IdKey, data)) == set e | e in data :: IdKey(e);
    SetSize(Map(IdKey, data))
  }

  /** Rows without an identity number all count as one key, `"undefined"`. */
  lemma AbsentIdsCountOnce(data: seq<Employee>)
    requires data != [] && forall e :: e in data ==> e.idNumber.Missing?
    ensures TotalEmployees(data) == 1
  {
    assert data[0] in data;
    assert (set e | e in data :: IdKey(e)) == {"undefined"};
  }

  /** The numeric id `n` and the text id `String(n)` are the same key. */
  lemma NumberAndTextIdsMerge(a: Employee, b: Employee, n: int)
    requires a.idNumber == Number(n) && b.idNumber == Text(DecimalString(n))
    ensures TotalEmployees([a, b]) == 1
  {
    TwoRowKeys(a, b);
    assert IdKey(a) == DecimalString(n) == IdKey(b);
  }

  /** Different numeric ids stay different keys. */
  lemma DistinctNumericIdsCountTwice(a: Employee, b: Employee)
    requires a.idNumber.Number? && b.idNumber.Number? && a.idNumber != b.idNumber
    ensures TotalEmployees([a, b]) == 2
  {
    TwoRowKeys(a, b);
    assert ParseDecimal(IdKey(a)) == a.idNumber.number;
    assert ParseDecimal(IdKey(b)) == b.idNumber.number;
    assert IdKey(a) != IdKey(b);
  }

  /** The identity keys of two rows. */
  lemma TwoRowKeys(a: Employee, b: Employee)
    ensures TotalEmployees([a, b]) == |{IdKey(a), IdKey(b)}|
  {
    assert (set e | e in [a, b] :: IdKey(e)) == {IdKey(a), IdKey(b)};
  }

  /** `Array.from(new Set(data.map(d => d.COMPANY))).length`. */
  function CompanyCount(data: seq<Employee>): (n: nat)
    ensures n == |set e | e in data :: CompanyOf(e)|
    ensures n <= |data|
  {
    MapToSet(CompanyOf, data);
    assert ToSet(Map(CompanyOf, data)) == set e | e in data :: CompanyOf(e);
    SetSize(Map(CompanyOf, data))
  }

  /** One entry of `Object.entries(nationalities).map(([name, value]) => ({ name, value }))`. */
  datatype NameValue = NameValue(name: string, value: nat)

  function EntryName(nv: NameValue): string { nv.name }

  function Names(entries: seq<NameValue>): seq<string> {
    Map(EntryName, entries)
  }

  ghost predicate UniqueNames(entries: seq<NameValue>) {
    forall i, j :: 0 <= i < j < |entries| ==> entries[i].name != entries[j].name
  }

  lemma {:induction false} NamesCons(x: NameValue, s: seq<NameValue>)
    ensures Names([x] + s) == [x.name] + Names(s)
  {
    assert ([x] + s)[1..] == s;
  }

  lemma {:induction false} NamesSnoc(s: seq<NameValue>, x: NameValue)
    ensures Names(s + [x]) == Names(s) + [x.name]
  {
    if s != [] {
      assert (s + [x])[1..] == s[1..] + [x];
      NamesSnoc(s[1..], x);
    }
  }

  /** Dropping the first entry keeps the names unique, and the first name
      does not occur again. */
  lemma UniqueNamesTail(acc: seq<NameValue>)
    requires acc != [] && UniqueNames(acc)
    ensures UniqueNames(acc[1..]) && acc[0].name !in Names(acc[1..])
  {
    var rest := acc[1..];
    var names := Names(rest);
    forall i | 0 <= i < |rest| ensures rest[i] == acc[i + 1] && names[i] == rest[i].name {
    }
  }

  /** One step of the `reduce`: `acc[k] = (acc[k] || 0) + 1`. A new key is
      appended, which keeps the keys in first-seen order. */
  function Bump(acc: seq<NameValue>, k: string): (r: seq<NameValue>)
    requires UniqueNames(acc)
    ensures |r| == if k in Names(acc) then |acc| else |acc| + 1
    ensures forall i :: 0 <= i < |acc| ==>
      r[i] == NameValue(acc[i].name, acc[i].value + (if acc[i].name == k then 1 else 0))
    ensures k !in Names(acc) ==> r[|acc|] == NameValue(k, 1)
  {
    var names := Names(acc);
    if k in names then
      var at := IndexOf(names, k);
      assert acc[at].name == k;
      assert forall i :: 0 <= i < |acc| && i != at ==> acc[i].name != k;
      acc[at := NameValue(k, acc[at].value + 1)]
    else
      assert forall i :: 0 <= i < |acc| ==> acc[i].name == names[i];
      acc + [NameValue(k, 1)]
  }

  /** The names after a step: unchanged for a key already present, the new
      key appended otherwise. */
  lemma BumpNames(acc: seq<NameValue>, k: string)
    requires UniqueNames(acc)
    ensures k in Names(acc) ==> Names(Bump(acc, k)) == Names(acc)
    ensures k !in Names(acc) ==> Names(Bump(acc, k)) == Names(acc) + [k]
  {
    var r, names := Bump(acc, k), Names(acc);
    var rn := Names(r);
    assert forall i :: 0 <= i < |acc| ==> rn[i] == names[i];
    if k !in names {
      assert rn[|acc|] == k;
    }
  }

  /** One more row keeps the entries' names the distinct values seen so far
      and each value the number of rows carrying its name. */
  lemma BumpCounts(acc: seq<NameValue>, p: seq<string>, k: string)
    requires UniqueNames(acc) && Names(acc) == Distinct(p)
    requires forall i :: 0 <= i < |acc| ==> acc[i].value == Occurrences(p, acc[i].name)
    ensures var r := Bump(acc, k);
      && Names(r) == Distinct(p + [k])
      && UniqueNames(r)
      && forall i :: 0 <= i < |r| ==> r[i].value == Occurrences(p + [k], r[i].name)
  {
    DistinctSnoc(p, k);
    BumpNames(acc, k);
    UniqueFromNoDuplicates(Bump(acc, k));
    BumpValues(acc, p, k);
  }

  /** Each count stays the number of occurrences of its name. */
  lemma BumpValues(acc: seq<NameValue>, p: seq<string>, k: string)
    requires UniqueNames(acc) && (k in p <==> k in Names(acc))
    requires forall i :: 0 <= i < |acc| ==> acc[i].value == Occurrences(p, acc[i].name)
    ensures var r := Bump(acc, k);
      forall i :: 0 <= i < |r| ==> r[i].value == Occurrences(p + [k], r[i].name)
  {
    var r := Bump(acc, k);
    OccurrencesPositive(p, k);
    forall i | 0 <= i < |r| ensures r[i].value == Occurrences(p + [k], r[i].name) {
      OccurrencesSnoc(p, k, r[i].name);
    }
  }

  lemma OccurrencesSnoc(p: seq<string>, k: string, x: string)
    ensures Occurrences(p + [k], x) == Occurrences(p, x) + (if x == k then 1 else 0)
  {
    assert (p + [k])[..|p|] == p;
  }

  /** Entries whose list of names has no duplicates have unique names. */
  lemma UniqueFromNoDuplicates(r: seq<NameValue>)
    requires NoDuplicates(Names(r))
    ensures UniqueNames(r)
  {
    var names := Names(r);
    forall i, j | 0 <= i < j < |r| ensures r[i].name != r[j].name {
      assert names[i] == r[i].name && names[j] == r[j].name;
    }
  }

  /** The nationality counts, built as `data.reduce` builds them, as entries. */
  function Tally(xs: seq<string>): (r: seq<NameValue>)
    ensures Names(r) == Distinct(xs)
    ensures UniqueNames(r)
    ensures forall i :: 0 <= i < |r| ==> r[i].value == Occurrences(xs, r[i].name)
  {
    if xs == [] then []
    else
      var p, k := xs[..|xs| - 1], xs[|xs| - 1];
      assert xs == p + [k];
      BumpCounts(Tally(p), p, k);
      Bump(Tally(p), k)
  }

  /** The sum of the values of a list of entries. */
  function Total(entries: seq<NameValue>): nat {
    if entries == [] then 0 else entries[0].value + Total(entries[1..])
  }

  lemma {:induction false} TotalSnoc(s: seq<NameValue>, x: NameValue)
    ensures Total(s + [x]) == Total(s) + x.value
  {
    if s != [] {
      assert (s + [x])[1..] == s[1..] + [x];
      TotalSnoc(s[1..], x);
    }
  }

  lemma {:induction false} TotalUpdate(s: seq<NameValue>, at: nat, x: NameValue)
    requires at < |s|
    ensures Total(s[at := x]) + s[at].value == Total(s) + x.value
  {
    if at > 0 {
      assert s[at := x][1..] == s[1..][at - 1 := x];
      TotalUpdate(s[1..], at - 1, x);
    }
  }

  /** Each step of the `reduce` adds one to the sum of the counts. */
  lemma TotalBump(acc: seq<NameValue>, k: string)
    requires UniqueNames(acc)
    ensures Total(Bump(acc, k)) == Total(acc) + 1
  {
    var names := Names(acc);
    if k in names {
      var at := IndexOf(names, k);
      assert acc[at].name == k;
      assert Bump(acc, k) == acc[at := NameValue(k, acc[at].value + 1)];
      TotalUpdate(acc, at, NameValue(k, acc[at].value + 1));
    } else {
      assert Bump(acc, k) == acc + [NameValue(k, 1)];
      TotalSnoc(acc, NameValue(k, 1));
    }
  }

  /** Every row is counted once: the counts add up to the number of rows. */
  lemma {:induction false} TallyCountsEveryRow(xs: seq<string>)
    ensures Total(Tally(xs)) == |xs|
  {
    if xs != [] {
      TallyCountsEveryRow(xs[..|xs| - 1]);
      TotalBump(Tally(xs[..|xs| - 1]), xs[|xs| - 1]);
    }
  }

  /** The nationality counts add up to the number of rows. */
  lemma NationalityCountsCoverEveryRow(data: seq<Employee>)
    ensures Total(Tally(Map(NationalityOf, data))) == |data|
  {
    TallyCountsEveryRow(Map(NationalityOf, data));
  }

  /** The nationality counts list each distinct nationality once, in the order
      in which the rows first show it. */
  lemma NationalityCountsInFirstSeenOrder(data: seq<Employee>)
    ensures InFirstSeenOrder(Names(Tally(Map(NationalityOf, data))), Map(NationalityOf, data))
  {
    DistinctFirstSeenOrder(Map(NationalityOf, data));
  }

  ghost predicate NonIncreasing(s: seq<NameValue>) {
    forall i, j :: 0 <= i < j < |s| ==> s[i].value >= s[j].value
  }

  /** Inserts `x` before the first entry whose value does not exceed its own. */
  function Insert(x: NameValue, s: seq<NameValue>): (r: seq<NameValue>)
    ensures |r| == |s| + 1
    ensures multiset(r) == multiset(s) + multiset{x}
  {
    if s == [] || s[0].value <= x.value then
      [x] + s
    else
      assert s == [s[0]] + s[1..];
      [s[0]] + Insert(x, s[1..])
  }

  /** No entry's value exceeds `b`. */
  ghost predicate AllAtMost(s: seq<NameValue>, b: nat) {
    forall i :: 0 <= i < |s| ==> s[i].value <= b
  }

  lemma NonIncreasingCons(a: NameValue, s: seq<NameValue>)
    requires AllAtMost(s, a.value) && NonIncreasing(s)
    ensures NonIncreasing([a] + s)
  {
    var full := [a] + s;
    forall i, j | 0 <= i < j < |full| ensures full[i].value >= full[j].value {
      assert full[j] == s[j - 1];
      if i > 0 {
        assert full[i] == s[i - 1];
      }
    }
  }

  lemma NonIncreasingTail(s: seq<NameValue>)
    requires s != [] && NonIncreasing(s)
    ensures AllAtMost(s[1..], s[0].value) && NonIncreasing(s[1..])
  {
    var rest := s[1..];
    forall i | 0 <= i < |rest| ensures rest[i] == s[i + 1] {
    }
  }

  /** Insertion keeps every value under a bound both the list and the new entry respect. */
  lemma {:induction false} InsertAtMost(x: NameValue, s: seq<NameValue>, b: nat)
    requires AllAtMost(s, b) && x.value <= b
    ensures AllAtMost(Insert(x, s), b)
  {
    if !(s == [] || s[0].value <= x.value) {
      var rest := s[1..];
      assert AllAtMost(rest, b) by {
        forall i | 0 <= i < |rest| ensures rest[i].value <= b {
          assert rest[i] == s[i + 1];
        }
      }
      InsertAtMost(x, rest, b);
      var r := Insert(x, rest);
      var full := Insert(x, s);
      assert full == [s[0]] + r;
      forall i | 0 <= i < |full| ensures full[i].value <= b {
        if i > 0 {
          assert full[i] == r[i - 1];
        }
      }
    }
  }

  /** Insertion keeps a non-increasing list non-increasing. */
  lemma {:induction false} InsertNonIncreasing(x: NameValue, s: seq<NameValue>)
    requires NonIncreasing(s)
    ensures NonIncreasing(Insert(x, s))
  {
    if s == [] || s[0].value <= x.value {
      NonIncreasingCons(x, s);
    } else {
      var rest := s[1..];
      NonIncreasingTail(s);
      InsertNonIncreasing(x, rest);
      InsertAtMost(x, rest, s[0].value);
      NonIncreasingCons(s[0], Insert(x, rest));
    }
  }

  /** `.sort((a, b) => b.value - a.value)`: descending by value; JavaScript's
      sort is stable, so equal values keep their relative order. */
  function SortByValueDesc(s: seq<NameValue>): (r: seq<NameValue>)
    ensures |r| == |s|
    ensures multiset(r) == multiset(s)
    ensures NonIncreasing(r)
  {
    if s == [] then []
    else
      assert s == [s[0]] + s[1..];
      InsertNonIncreasing(s[0], SortByValueDesc(s[1..]));
      Insert(s[0], SortByValueDesc(s[1..]))
  }

  function HasValue(v: nat): NameValue -> bool {
    (nv: NameValue) => nv.value == v
  }

  /** The entries with value `v`, in order. */
  function WithValue(s: seq<NameValue>, v: nat): seq<NameValue> {
    Filter(HasValue(v), s)
  }

  lemma {:induction false} InsertStable(x: NameValue, s: seq<NameValue>, v: nat)
    requires NonIncreasing(s)
    ensures WithValue(Insert(x, s), v) == WithValue([x], v) + WithValue(s, v)
  {
    if s == [] || s[0].value <= x.value {
      FilterAppend(HasValue(v), [x], s);
    } else {
      var rest := s[1..];
      assert s == [s[0]] + rest;
      InsertStable(x, rest, v);
      FilterAppend(HasValue(v), [s[0]], Insert(x, rest));
      FilterAppend(HasValue(v), [s[0]], rest);
    }
  }

  /** The sort is stable: for every value, the entries holding it keep their order. */
  lemma {:induction false} SortIsStable(s: seq<NameValue>, v: nat)
    ensures WithValue(SortByValueDesc(s), v) == WithValue(s, v)
  {
    if s != [] {
      assert s == [s[0]] + s[1..];
      SortIsStable(s[1..], v);
      InsertStable(s[0], SortByValueDesc(s[1..]), v);
      FilterAppend(HasValue(v), [s[0]], s[1..]);
    }
  }

  /** Insertion adds the one entry and keeps the others. */
  lemma InsertKeepsEntries(x: NameValue, s: seq<NameValue>, y: NameValue)
    ensures y in Insert(x, s) <==> y == x || y in s
  {
    var r := Insert(x, s);
    assert y in r <==> y in multiset(r);
    assert y in s <==> y in multiset(s);
  }

  /** An entry whose name is new can be put in front. */
  lemma UniqueNamesCons(a: NameValue, r: seq<NameValue>)
    requires UniqueNames(r) && forall y :: y in r ==> y.name != a.name
    ensures UniqueNames([a] + r)
  {
    var full := [a] + r;
    forall i, j | 0 <= i < j < |full| ensures full[i].name != full[j].name {
      assert full[j] == r[j - 1] && full[j] in r;
      if i > 0 {
        assert full[i] == r[i - 1];
      }
    }
  }

  lemma {:induction false} InsertUniqueNames(x: NameValue, s: seq<NameValue>)
    requires UniqueNames(s)
    requires forall y :: y in s ==> y.name != x.name
    ensures UniqueNames(Insert(x, s))
  {
    if s == [] || s[0].value <= x.value {
      UniqueNamesCons(x, s);
    } else {
      var rest := s[1..];
      UniqueNamesTail(s);
      assert forall y :: y in rest ==> y in s;
      InsertUniqueNames(x, rest);
      var r := Insert(x, rest);
      forall y | y in r ensures y.name != s[0].name {
        InsertKeepsEntries(x, rest, y);
        if y in rest {
          var k :| 0 <= k < |rest| && rest[k] == y;
          assert Names(rest)[k] == y.name;
        }
      }
      UniqueNamesCons(s[0], r);
    }
  }

  lemma {:induction false} SortUniqueNames(s: seq<NameValue>)
    requires UniqueNames(s)
    ensures UniqueNames(SortByValueDesc(s))
  {
    if s != [] {
      var rest := s[1..];
      UniqueNamesTail(s);
      SortUniqueNames(rest);
      var sorted := SortByValueDesc(rest);
      forall y | y in sorted ensures y.name != s[0].name {
        SortKeepsEntries(rest, y);
        var k :| 0 <= k < |rest| && rest[k] == y;
        assert Names(rest)[k] == y.name;
      }
      InsertUniqueNames(s[0], sorted);
    }
  }


  /** Every entry of the tally names a value of `xs` and carries its number of occurrences. */
  lemma TallyEntries(xs: seq<string>)
    ensures forall nv :: nv in Tally(xs) ==> nv.value == Occurrences(xs, nv.name) >= 1
  {
    var tally := Tally(xs);
    forall nv | nv in tally ensures nv.value == Occurrences(xs, nv.name) >= 1 {
      var m :| 0 <= m < |tally| && tally[m] == nv;
      assert Names(tally)[m] == nv.name;
      OccurrencesPositive(xs, nv.name);
    }
  }

  /** Every value of `xs` names an entry of the tally. */
  lemma TallyCovers(xs: seq<string>, k: string)
    requires k in xs
    ensures exists nv :: nv in Tally(xs) && nv.name == k
  {
    var tally := Tally(xs);
    assert k in Names(tally);
    var m :| 0 <= m < |tally| && Names(tally)[m] == k;
    assert tally[m] in tally;
  }

  /** The sorted tally: one entry per distinct value, each carrying the number
      of its occurrences, most frequent first. */
  lemma SortedTally(xs: seq<string>)
    ensures var sorted := SortByValueDesc(Tally(xs));
      && |sorted| == |ToSet(xs)|
      && UniqueNames(sorted)
      && NonIncreasing(sorted)
      && (forall i :: 0 <= i < |sorted| ==> sorted[i].value == Occurrences(xs, sorted[i].name) >= 1)
  {
    var tally := Tally(xs);
    var sorted := SortByValueDesc(tally);
    DistinctCardinality(xs);
    SortUniqueNames(tally);
    TallyEntries(xs);
    forall i | 0 <= i < |sorted| ensures sorted[i].value == Occurrences(xs, sorted[i].name) >= 1 {
      SortKeepsEntries(tally, sorted[i]);
    }
  }

  /** Sorting neither adds nor drops an entry. */
  lemma SortKeepsEntries(s: seq<NameValue>, nv: NameValue)
    ensures nv in SortByValueDesc(s) <==> nv in s
  {
    var sorted := SortByValueDesc(s);
    assert nv in sorted <==> nv in multiset(sorted);
    assert nv in s <==> nv in multiset(s);
  }

  /** Every value of `xs` has an entry in the sorted tally. */
  lemma SortedTallyCovers(xs: seq<string>, k: string)
    requires k in xs
    ensures k in Names(SortByValueDesc(Tally(xs)))
  {
    var tally := Tally(xs);
    var sorted := SortByValueDesc(tally);
    TallyCovers(xs, k);
    var nv :| nv in tally && nv.name == k;
    SortKeepsEntries(tally, nv);
    var n :| 0 <= n < |sorted| && sorted[n] == nv;
    assert Names(sorted)[n] == k;
  }

  /** How many nationalities the chart shows. */
  const TopNationalities := 5

  /** The first five entries of the sorted tally of `xs`. */
  function TopEntries(xs: seq<string>): seq<NameValue> {
    var sorted := SortByValueDesc(Tally(xs));
    if |sorted| <= TopNationalities then sorted else sorted[..TopNationalities]
  }

  /** `stats.nationalityData`: the nationality counts, most frequent first, cut to five. */
  function NationalityData(data: seq<Employee>): seq<NameValue> {
    TopEntries(Map(NationalityOf, data))
  }

  /** The top entries are the head of the sorted tally. */
  lemma TopEntriesPrefix(xs: seq<string>)
    ensures var sorted, r := SortByValueDesc(Tally(xs)), TopEntries(xs);
      && |r| == (if |sorted| < TopNationalities then |sorted| else TopNationalities)
      && forall i :: 0 <= i < |r| ==> r[i] == sorted[i]
  {
  }

  /** The top entries: min(5, number of distinct values) entries with
      distinct names, most frequent first, each carrying its occurrence count. */
  lemma TopEntriesCounts(xs: seq<string>)
    ensures var r := TopEntries(xs);
      && |r| == (if |ToSet(xs)| < TopNationalities then |ToSet(xs)| else TopNationalities)
      && UniqueNames(r)
      && NonIncreasing(r)
      && (forall i :: 0 <= i < |r| ==> r[i].value == Occurrences(xs, r[i].name) >= 1)
  {
    SortedTally(xs);
    TopEntriesPrefix(xs);
    var sorted := SortByValueDesc(Tally(xs));
    var r := TopEntries(xs);
    forall i, j | 0 <= i < j < |r| ensures r[i].name != r[j].name && r[i].value >= r[j].value {
      assert r[i] == sorted[i] && r[j] == sorted[j];
    }
    forall i | 0 <= i < |r| ensures r[i].value == Occurrences(xs, r[i].name) >= 1 {
      assert r[i] == sorted[i];
    }
  }

  /** The chart lists min(5, number of nationalities) entries, with distinct
      names, most frequent first, each carrying its row count. */
  lemma NationalityDataCounts(data: seq<Employee>)
    ensures var nats, r := Map(NationalityOf, data), NationalityData(data);
      && |r| == (if |ToSet(nats)| < TopNationalities then |ToSet(nats)| else TopNationalities)
      && UniqueNames(r)
      && NonIncreasing(r)
      && (forall i :: 0 <= i < |r| ==> r[i].value == Occurrences(nats, r[i].name) >= 1)
  {
    TopEntriesCounts(Map(NationalityOf, data));
  }

  /** In a non-increasing list, an entry whose name is not among those of a
      prefix `r` has a value no greater than the last entry of that prefix. */
  lemma BeyondPrefixNoGreater(sorted: seq<NameValue>, r: seq<NameValue>, j: nat)
    requires NonIncreasing(sorted) && 0 < |r| <= |sorted| && j < |sorted|
    requires forall i :: 0 <= i < |r| ==> r[i] == sorted[i]
    requires sorted[j].name !in Names(r)
    ensures sorted[j].value <= r[|r| - 1].value
  {
    var names := Names(r);
    assert forall i :: 0 <= i < |r| ==> names[i] == sorted[i].name && names[i] in names;
  }

  /** No value left out of the top entries is more frequent than the last one kept. */
  lemma TopEntriesAreTop(xs: seq<string>, k: string)
    requires k in xs && k !in Names(TopEntries(xs))
    ensures TopEntries(xs) != []
    ensures Occurrences(xs, k) <= TopEntries(xs)[|TopEntries(xs)| - 1].value
  {
    var sorted := SortByValueDesc(Tally(xs));
    var r := TopEntries(xs);
    SortedTally(xs);
    TopEntriesPrefix(xs);
    SortedTallyCovers(xs, k);
    var j :| 0 <= j < |sorted| && Names(sorted)[j] == k;
    BeyondPrefixNoGreater(sorted, r, j);
  }

  /** No nationality left off the chart is more frequent than the last one shown. */
  lemma NationalityDataIsTop(data: seq<Employee>, k: string)
    requires k in Map(NationalityOf, data) && k !in Names(NationalityData(data))
    ensures NationalityData(data) != []
    ensures Occurrences(Map(NationalityOf, data), k) <= NationalityData(data)[|NationalityData(data)| - 1].value
  {
    TopEntriesAreTop(Map(NationalityOf, data), k);
  }
}
