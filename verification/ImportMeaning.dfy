/** What a first import makes of a source, row by row, in terms of the source and of the
    tables afterwards alone. */
module ImportMeaning {
  import opened Wrappers
  import opened Text
  import opened AssetImport

  // ---------------------------------------------------------------- names

  /** The id is that of a name with the same letters, or none for a blank name. */
  ghost predicate RefersTo(rows: seq<string>, id: Option<nat>, name: string) {
    if Strip(name) == "" then id == None
    else id.Some? && id.value < |rows| && Lower(rows[id.value]) == Lower(Strip(name))
  }

  lemma {:induction false} NameIndexPoints(rows: seq<string>, key: string)
    requires key in NameIndex(rows)
    ensures NameIndex(rows)[key] < |rows| && Lower(rows[NameIndex(rows)[key]]) == key
  {
    hide Lower;
    if key != Lower(rows[|rows| - 1]) {
      NameIndexPoints(rows[..|rows| - 1], key);
    }
  }

  lemma SettledName(n: Names, later: Names, name: string)
    requires Known(n, Strip(name)) && later.index == NameIndex(later.rows)
    requires forall k | k in n.index :: k in later.index && later.index[k] == n.index[k]
    ensures RefersTo(later.rows, NameId(n, Strip(name)), name)
  {
    hide Lower, Strip, NameIndex;
    if Strip(name) != "" {
      NameIndexPoints(later.rows, Lower(Strip(name)));
    }
  }

  // ---------------------------------------------------------------- employees

  function FilledIn(text: string, id: int, prefix: string, suffix: string): string {
    if Strip(text) != "" then Strip(text) else prefix + IdText(id) + suffix
  }

  /** The record says what the row says: its number and email or made-up ones, its
      employment, its department and location by name, and AssetPilot as the source. */
  ghost predicate Says(tables: Tables, row: EmployeeRow, r: Employee) {
    && r.number == FilledIn(row.number, row.employeeId, "ASSETPILOT-", "")
    && r.email == Lower(FilledIn(row.email, row.employeeId, "assetpilot-", "@invalid.local"))
    && (r.firstName, r.lastName) == SplitName(if Strip(row.displayName) != "" then Strip(row.displayName) else r.number)
    && r.preferred == r.firstName
    && r.status == (if row.active && !row.deleted then "Active" else "Inactive") && r.source == "AssetPilot"
    && RefersTo(tables.departments, r.department, row.department)
    && RefersTo(tables.locations, r.location, row.location)
    && (r.user.Some? ==> r.user.value < |tables.users| && Lower(tables.users[r.user.value]) == r.email)
    && (row.active && !row.deleted && !EndsWith(r.email, "@invalid.local") && Strip(r.email) != "" ==> r.user.Some?)
  }

  lemma EndsWithExactly(s: string, end: string)
    ensures EndsWith(s, end) <==> exists before :: s == before + end
  {
    if EndsWith(s, end) {
      assert s == s[..|s| - |end|] + end;
    }
    if before :| s == before + end {
      assert s[|s| - |end|..] == end;
    }
  }

  /** The email is that of somebody employed who can be written to. */
  lemma EmployableExactly(e: Employee)
    ensures Employable(e) <==>
      && Strip(e.email) != "" && Lower(e.status) == "active"
      && !exists before :: Lower(Strip(e.email)) == before + "@invalid.local"
  {
    hide Strip;
    EndsWithExactly(Lower(Strip(e.email)), "@invalid.local");
    EmptyLower(Strip(e.email));
  }

  /** A name with a comma is last name and first name; one without is its first word and
      the words after it, or all first name when it is a single word. */
  lemma NamesSplit(last: string, first: string, name: string)
    requires ',' !in last && Trim(last + "," + first)
    ensures SplitName(last + "," + first) ==
      (if Strip(first) != "" then Strip(first) else last + "," + first, Strip(last))
    ensures Trim(name) && ',' !in name && |Words(name)| <= 1 ==> SplitName(name) == (name, "")
    ensures Trim(name) && ',' !in name && 1 < |Words(name)| ==>
      SplitName(name).0 == Words(name)[0] && Words(SplitName(name).1) == Words(name)[1..]
      && SingleSpaced(SplitName(name).1)
  {
    hide Strip, Collapsed, FirstWord, StripLeft;
    var whole := last + "," + first;
    TrimStays(whole);
    CommaSplits(last, first);
    assert whole[|last| + 1..] == first;
    if Trim(name) && ',' !in name {
      TrimStays(name);
      NoComma(name);
      WordsSplit(name);
    }
  }

  lemma {:induction false} CommaSplits(last: string, first: string)
    requires ',' !in last
    ensures BeforeComma(last + "," + first) == last
  {
    if last != [] {
      assert last[0] in last && forall c | c in last[1..] :: c in last;
      assert (last + "," + first)[1..] == last[1..] + "," + first;
      CommaSplits(last[1..], first);
    }
  }

  lemma {:induction false} NoComma(s: string)
    requires ',' !in s
    ensures BeforeComma(s) == s
  {
    if s != [] {
      assert s[0] in s && forall c | c in s[1..] :: c in s;
      NoComma(s[1..]);
    }
  }

  lemma WordsSplit(name: string)
    requires Trim(name)
    ensures var word := FirstWord(name);
      var rest := Collapsed(name[|word|..]);
      && (name == "" ==> Words(name) == [] && rest == "")
      && (name != "" ==> Words(name) == [word] + Words(rest))
      && SingleSpaced(rest) && (rest == "" <==> Words(rest) == [])
  {
    hide Collapsed, SingleSpaced;
    var word := FirstWord(name);
    CollapsedWords(name[|word|..]);
    if name != "" {
      WordsFirst(name);
    } else {
      NothingLeft();
    }
  }

  lemma NothingLeft()
    ensures Words("") == [] && Collapsed("") == ""
  {
  }

  lemma ActiveInLowerCase()
    ensures Lower("Active") == "active" && Lower("Inactive") != "active"
  {
  }

  lemma EntrySays(row: EmployeeRow)
    ensures var e := EntryOf(row);
      && e.id == row.employeeId
      && e.number == FilledIn(row.number, row.employeeId, "ASSETPILOT-", "")
      && e.email == Lower(FilledIn(row.email, row.employeeId, "assetpilot-", "@invalid.local"))
      && (e.firstName, e.lastName) ==
           SplitName(if Strip(row.displayName) != "" then Strip(row.displayName) else e.number)
      && e.status == (if row.active && !row.deleted then "Active" else "Inactive")
      && e.department == Strip(row.department) && e.location == Strip(row.location)
  {
    hide Strip, SplitName, IdText, Lower;
    assert "ASSETPILOT-" + IdText(row.employeeId) == "ASSETPILOT-" + IdText(row.employeeId) + "";
  }

  lemma SettledSays(p: People, tables: Tables, departments: Names, locations: Names, row: EmployeeRow, j: nat)
    requires EmployeeSettled(p, EntryOf(row), j) && p.userByEmail == NameIndex(p.users) && tables.users == p.users
    requires departments.index == NameIndex(departments.rows) && departments.rows == tables.departments
    requires locations.index == NameIndex(locations.rows) && locations.rows == tables.locations
    requires forall k | k in p.departments.index ::
      k in departments.index && departments.index[k] == p.departments.index[k]
    requires forall k | k in p.locations.index :: k in locations.index && locations.index[k] == p.locations.index[k]
    ensures Says(tables, row, p.employees[j])
  {
    hide Lower, Strip, EntryOf, NameIndex, SplitName, IdText, FilledIn, RefersTo, Known, NameId, EndsWith;
    EntrySays(row);
    EntryEmailClean(row);
    SettledName(p.departments, departments, row.department);
    SettledName(p.locations, locations, row.location);
    SettledUser(p, EntryOf(row), p.employees[j]);
    ActiveInLowerCase();
  }

  lemma SettledUser(p: People, e: EmployeeEntry, r: Employee)
    requires UserSettled(p, e, r) && p.userByEmail == NameIndex(p.users) && r.email == e.email && CleanEmail(e)
    ensures r.user.Some? ==> r.user.value < |p.users| && Lower(p.users[r.user.value]) == r.email
    ensures Lower(r.status) == "active" && !EndsWith(r.email, "@invalid.local") && Strip(r.email) != "" ==> r.user.Some?
  {
    hide Lower, Strip, NameIndex, EndsWith;
    EmptyLower(Strip(r.email));
    if Lower(e.email) in p.userByEmail {
      NameIndexPoints(p.users, Lower(e.email));
    }
  }

  lemma EmptyLower(s: string)
    ensures Lower(s) == "" <==> s == ""
  {
  }

  /** Every employee of a source with distinct keys is there after its first import, and
      the record says what the row says. */
  lemma EmployeesSay(t: Tables, source: Source, j: nat)
    requires t.employees == [] && t.assets == [] && DistinctSource(source) && j < |source.employees|
    ensures var once := Import(t, source).0;
      |once.employees| == |source.employees| && Says(once, source.employees[j], once.employees[j])
  {
    hide Import, WithHistory, DistinctSource, Says, EmployeeSettled, NameIndex, EntryOf, AssetSettled;
    var p, st := FirstImport(t, source);
    assert EmployeeSettled(p, Entries(source.employees)[j], j);
    assert Entries(source.employees)[j] == EntryOf(source.employees[j]);
    hide Entries, AssetEntries, EntryIds, AssetIds;
    SettledSays(p, Import(t, source).0, st.departments, st.locations, source.employees[j], j);
  }

  // ---------------------------------------------------------------- who holds an asset

  /** Record `e` is that of the last row with the employee id. */
  ghost predicate RecordOf(rows: seq<EmployeeRow>, id: int, e: nat) {
    e < |rows| && rows[e].employeeId == id && forall later | e < later < |rows| :: rows[later].employeeId != id
  }

  lemma {:induction false} EntryIdsExactly(rows: seq<EmployeeRow>, id: int, e: nat)
    ensures id in EntryIds(Entries(rows)) && EntryIds(Entries(rows))[id] == e <==> RecordOf(rows, id, e)
    ensures id in EntryIds(Entries(rows)) ==> EntryIds(Entries(rows))[id] < |rows|
    decreases |rows|
  {
    hide EntryOf;
    if rows != [] {
      var last := |rows| - 1;
      EntryIdsExactly(rows[..last], id, e);
      assert Entries(rows)[..last] == Entries(rows[..last]);
      EntryKeepsId(rows[last]);
    }
  }

  lemma EntryKeepsId(row: EmployeeRow)
    ensures EntryOf(row).id == row.employeeId
  {
  }

  /** Assignment `i` is in force: not returned, and any later one of the asset is. */
  ghost predicate InForce(rows: seq<AssignmentRow>, assetId: int, i: nat) {
    && i < |rows| && rows[i].assetId == assetId && !rows[i].returned
    && forall later | i < later < |rows| && rows[later].assetId == assetId :: rows[later].returned
  }

  lemma {:induction false} ActiveExactly(rows: seq<AssignmentRow>, assetId: int)
    ensures ActiveAssignment(rows, assetId).None? ==> forall i: nat :: !InForce(rows, assetId, i)
    ensures ActiveAssignment(rows, assetId).Some? ==> exists i: nat :: InForce(rows, assetId, i)
    ensures forall i: nat | InForce(rows, assetId, i) :: ActiveAssignment(rows, assetId) == Some(rows[i])
    decreases |rows|
  {
    if rows != [] {
      var last := |rows| - 1;
      var before := rows[..last];
      ActiveExactly(before, assetId);
      if rows[last].assetId == assetId && !rows[last].returned {
        assert InForce(rows, assetId, last);
      } else {
        forall i: nat ensures InForce(rows, assetId, i) <==> InForce(before, assetId, i) {
          assert i < last ==> before[i] == rows[i];
        }
      }
    }
  }

  /** Assignment `i` gives the asset to the employee of record `e`. */
  ghost predicate Gives(source: Source, assetId: int, i: nat, e: nat) {
    InForce(source.assignments, assetId, i) && RecordOf(source.employees, source.assignments[i].employeeId, e)
  }

  lemma HolderOfEntry(row: AssetRow, source: Source, e: nat)
    ensures AssetEntryOf(row, source, EntryIds(Entries(source.employees))).employee == Some(e) <==>
      exists i: nat :: Gives(source, row.assetId, i, e)
  {
    hide Strip, OrElse, IdText, AddressesOf, EntryIds, Entries, ActiveAssignment, InForce, RecordOf;
    var found := ActiveAssignment(source.assignments, row.assetId);
    ActiveExactly(source.assignments, row.assetId);
    if found.Some? {
      EntryIdsExactly(source.employees, found.value.employeeId, e);
      var i: nat :| InForce(source.assignments, row.assetId, i);
      ForceInRange(source.assignments, row.assetId, i);
      assert source.assignments[i] == found.value;
      if RecordOf(source.employees, found.value.employeeId, e) {
        assert Gives(source, row.assetId, i, e);
      }
    }
    if i: nat :| Gives(source, row.assetId, i, e) {
      assert InForce(source.assignments, row.assetId, i);
    }
  }

  lemma ForceInRange(rows: seq<AssignmentRow>, assetId: int, i: nat)
    requires InForce(rows, assetId, i)
    ensures i < |rows|
  {
  }

  /** After a first import an asset is held by an employee if and only if the source has an
      assignment of the asset to that employee that is not returned and is followed only
      by returned ones. */
  lemma HolderExactly(t: Tables, source: Source, j: nat, e: nat)
    requires t.employees == [] && t.assets == [] && DistinctSource(source) && j < |source.assets|
    ensures var once := Import(t, source).0;
      |once.assets| == |source.assets|
      && (once.assets[j].employee == Some(e) <==> exists i: nat :: Gives(source, source.assets[j].assetId, i, e))
  {
    hide Import, WithHistory, DistinctSource, EmployeeSettled, AssetEntryOf, EntryIds, Entries, Gives;
    var p, st := FirstImport(t, source);
    assert AssetSettled(st, AssetEntries(source, p.sourceIds)[j], j);
    HolderOfEntry(source.assets[j], source, e);
  }

  /** An asset whose assignments were all returned has no holder. */
  lemma ReturnedIsFree(t: Tables, source: Source, j: nat)
    requires t.employees == [] && t.assets == [] && DistinctSource(source) && j < |source.assets|
    requires forall i | 0 <= i < |source.assignments| && source.assignments[i].assetId == source.assets[j].assetId ::
      source.assignments[i].returned
    ensures j < |Import(t, source).0.assets| && Import(t, source).0.assets[j].employee.None?
  {
    hide Import, DistinctSource;
    HolderExactly(t, source, j, 0);
    var holder := Import(t, source).0.assets[j].employee;
    if holder.Some? {
      HolderExactly(t, source, j, holder.value);
    }
  }

  // ---------------------------------------------------------------- assets

  /** `picked` lists the positions of the asset's addresses, in order. */
  ghost predicate PicksAll(rows: seq<AddressRow>, assetId: int, picked: seq<nat>) {
    && (forall i, j | 0 <= i < j < |picked| :: picked[i] < picked[j])
    && (forall i | 0 <= i < |picked| :: picked[i] < |rows|)
    && forall k | 0 <= k < |rows| :: rows[k].assetId == assetId <==> exists i :: 0 <= i < |picked| && picked[i] == k
  }

  lemma PicksMore(rows: seq<AddressRow>, assetId: int, before: seq<nat>)
    requires rows != [] && PicksAll(rows[..|rows| - 1], assetId, before)
    ensures PicksAll(rows, assetId, if rows[|rows| - 1].assetId == assetId then before + [|rows| - 1] else before)
  {
    var last := |rows| - 1;
    var picked := if rows[last].assetId == assetId then before + [last] else before;
    forall k | 0 <= k < |rows|
      ensures rows[k].assetId == assetId <==> exists i :: 0 <= i < |picked| && picked[i] == k
    {
      if k < last {
        assert rows[..last][k] == rows[k];
        if i :| 0 <= i < |before| && before[i] == k {
          assert picked[i] == k;
        }
      } else if rows[last].assetId == assetId {
        assert picked[|before|] == last;
      }
    }
  }

  /** The addresses of an asset are its rows among the source's, in their order. */
  lemma {:induction false} AddressesExactly(rows: seq<AddressRow>, assetId: int) returns (picked: seq<nat>)
    ensures PicksAll(rows, assetId, picked) && |picked| == |AddressesOf(rows, assetId)|
    ensures forall i | 0 <= i < |picked| :: picked[i] < |rows| && AddressesOf(rows, assetId)[i] == rows[picked[i]]
    decreases |rows|
  {
    hide PicksAll;
    if rows == [] {
      picked := [];
      NothingPicked(assetId);
    } else {
      var last := |rows| - 1;
      var before := AddressesExactly(rows[..last], assetId);
      PicksMore(rows, assetId, before);
      picked := if rows[last].assetId == assetId then before + [last] else before;
    }
  }

  lemma NothingPicked(assetId: int)
    ensures PicksAll([], assetId, [])
  {
  }

  /** A column as it is stored: the stripped text, or what stands for a blank one. */
  function ColumnText(column: string, text: string, tag: string): string {
    if Strip(text) != "" then Strip(text)
    else match column
      case "Name" => tag
      case "Category" => "Computer"
      case "AssetType" => "Other"
      case "Status" => "Active"
      case "Condition" => "Good"
      case _ => ""
  }

  /** The asset says what the row says: its keys, its department and location by name, its
      columns and addresses, and where it comes from. */
  ghost predicate AssetSays(tables: Tables, source: Source, row: AssetRow, a: Asset) {
    && a.tag == FilledIn(row.tag, row.assetId, "ASSETPILOT-", "")
    && a.hostname == (if Strip(row.hostname) == "" then None else Some(Strip(row.hostname)))
    && a.serial == (if Strip(row.serial) == "" then None else Some(Strip(row.serial)))
    && RefersTo(tables.departments, a.department, row.department)
    && RefersTo(tables.locations, a.location, row.location)
    && a.source == "AssetPilot" && a.sourceId == Some(row.assetId)
    && a.columns.Keys == row.columns.Keys
    && (forall column | column in a.columns :: a.columns[column] == ColumnText(column, row.columns[column], a.tag))
    && a.addresses == AddressesOf(source.addresses, row.assetId)
  }

  lemma ColumnExactly(column: string, text: string, tag: string)
    ensures OrElse(text, ColumnDefault(column, tag)) == ColumnText(column, text, tag)
  {
    hide Strip;
  }

  lemma AssetEntrySays(row: AssetRow, source: Source, employeeIds: map<int, nat>)
    ensures var e := AssetEntryOf(row, source, employeeIds);
      && e.id == row.assetId && e.tag == FilledIn(row.tag, row.assetId, "ASSETPILOT-", "")
      && e.hostname == Strip(row.hostname) && e.serial == Strip(row.serial)
      && e.department == Strip(row.department) && e.location == Strip(row.location)
      && e.columns.Keys == row.columns.Keys
      && (forall column | column in e.columns :: e.columns[column] == ColumnText(column, row.columns[column], e.tag))
      && e.addresses == AddressesOf(source.addresses, row.assetId)
  {
    hide Strip, IdText, ColumnText, ColumnDefault, ActiveAssignment, AddressesOf, OrElse;
    var e := AssetEntryOf(row, source, employeeIds);
    TagFilledIn(row);
    forall column | column in e.columns
      ensures e.columns[column] == ColumnText(column, row.columns[column], e.tag)
    {
      ColumnExactly(column, row.columns[column], e.tag);
    }
  }

  lemma TagFilledIn(row: AssetRow)
    ensures OrElse(row.tag, "ASSETPILOT-" + IdText(row.assetId)) == FilledIn(row.tag, row.assetId, "ASSETPILOT-", "")
  {
    hide Strip, IdText;
    assert "ASSETPILOT-" + IdText(row.assetId) == "ASSETPILOT-" + IdText(row.assetId) + "";
  }

  lemma SettledAssetSays(st: Stock, tables: Tables, source: Source, employeeIds: map<int, nat>, row: AssetRow, j: nat)
    requires AssetSettled(st, AssetEntryOf(row, source, employeeIds), j) && StockMirrored(st)
    requires tables.departments == st.departments.rows && tables.locations == st.locations.rows
    ensures AssetSays(tables, source, row, st.assets[j])
  {
    hide Lower, Strip, AssetEntryOf, NameIndex, IdText, FilledIn, RefersTo, Known, NameId, ColumnText, AddressesOf;
    hide SourceIndex, TagIndex, HostnameIndex, SerialIndex;
    AssetEntrySays(row, source, employeeIds);
    SettledName(st.departments, st.departments, row.department);
    SettledName(st.locations, st.locations, row.location);
  }

  /** Every asset of a source with distinct keys is there after its first import, and says
      what the row says. */
  lemma AssetsSay(t: Tables, source: Source, j: nat)
    requires t.employees == [] && t.assets == [] && DistinctSource(source) && j < |source.assets|
    ensures var once := Import(t, source).0;
      |once.assets| == |source.assets| && AssetSays(once, source, source.assets[j], once.assets[j])
  {
    hide Import, WithHistory, DistinctSource, AssetSays, EmployeeSettled, AssetSettled, NameIndex, AssetEntryOf;
    var p, st := FirstImport(t, source);
    assert AssetSettled(st, AssetEntries(source, p.sourceIds)[j], j);
    assert AssetEntries(source, p.sourceIds)[j] == AssetEntryOf(source.assets[j], source, p.sourceIds);
    hide Entries, AssetEntries, EntryIds, AssetIds;
    SettledAssetSays(st, Import(t, source).0, source, p.sourceIds, source.assets[j], j);
  }

  // ---------------------------------------------------------------- history

  /** Assignment `k` is new to the history and belongs to an imported asset: its event. */
  ghost predicate RecordsAssignment(source: Source, before: seq<History>, k: nat, h: History) {
    && k < |source.assignments|
    && (forall known | known in before :: known.event != AssignmentEvent(source.assignments[k].id))
    && h.asset < |source.assets| && source.assets[h.asset].assetId == source.assignments[k].assetId
    && h.event == AssignmentEvent(source.assignments[k].id) && h.notes == [source.assignments[k].notes]
    && forall e: nat :: h.employee == Some(e) <==> RecordOf(source.employees, source.assignments[k].employeeId, e)
  }

  ghost predicate RecordsStatus(source: Source, before: seq<History>, k: nat, h: History) {
    && k < |source.statuses|
    && (forall known | known in before :: known.event != StatusEvent(source.statuses[k].id))
    && h.asset < |source.assets| && source.assets[h.asset].assetId == source.statuses[k].assetId
    && h.event == StatusEvent(source.statuses[k].id) && h.employee == None
    && h.notes == [source.statuses[k].before, source.statuses[k].after]
  }

  /** Row `k` is new and of a known asset, and this is its event. */
  ghost predicate AddsAssignment(rows: seq<AssignmentRow>, imported: set<Event>, assets: map<int, nat>,
                                 employees: map<int, nat>, k: nat, h: History) {
    && k < |rows| && AssignmentEvent(rows[k].id) !in imported && rows[k].assetId in assets
    && h == History(assets[rows[k].assetId], AssignmentEvent(rows[k].id), LookUp(employees, rows[k].employeeId),
                    [rows[k].notes])
  }

  ghost predicate AddsStatus(rows: seq<StatusRow>, imported: set<Event>, assets: map<int, nat>, k: nat, h: History) {
    && k < |rows| && StatusEvent(rows[k].id) !in imported && rows[k].assetId in assets
    && h == History(assets[rows[k].assetId], StatusEvent(rows[k].id), None, [rows[k].before, rows[k].after])
  }

  lemma {:induction false} NewAssignmentsExactly(rows: seq<AssignmentRow>, imported: set<Event>, assets: map<int, nat>,
                                                 employees: map<int, nat>, h: History)
    ensures h in NewAssignments(rows, imported, assets, employees) <==>
      exists k: nat :: AddsAssignment(rows, imported, assets, employees, k, h)
    decreases |rows|
  {
    if rows != [] {
      var last := |rows| - 1;
      NewAssignmentsExactly(rows[..last], imported, assets, employees, h);
      forall k: nat | k < last
        ensures AddsAssignment(rows, imported, assets, employees, k, h) <==>
                AddsAssignment(rows[..last], imported, assets, employees, k, h)
      {
      }
      assert h in NewAssignments(rows, imported, assets, employees) <==>
        h in NewAssignments(rows[..last], imported, assets, employees)
        || AddsAssignment(rows, imported, assets, employees, last, h);
    }
  }

  lemma {:induction false} NewStatusesExactly(rows: seq<StatusRow>, imported: set<Event>, assets: map<int, nat>,
                                              h: History)
    ensures h in NewStatuses(rows, imported, assets) <==> exists k: nat :: AddsStatus(rows, imported, assets, k, h)
    decreases |rows|
  {
    if rows != [] {
      var last := |rows| - 1;
      NewStatusesExactly(rows[..last], imported, assets, h);
      forall k: nat | k < last
        ensures AddsStatus(rows, imported, assets, k, h) <==> AddsStatus(rows[..last], imported, assets, k, h)
      {
      }
      assert h in NewStatuses(rows, imported, assets) <==>
        h in NewStatuses(rows[..last], imported, assets) || AddsStatus(rows, imported, assets, last, h);
    }
  }

  lemma {:induction false} AssetIdsExactly(entries: seq<AssetEntry>, id: int, j: nat)
    requires forall a, b | 0 <= a < b < |entries| :: entries[a].id != entries[b].id
    ensures id in AssetIds(entries) && AssetIds(entries)[id] == j <==> j < |entries| && entries[j].id == id
    decreases |entries|
  {
    if entries != [] {
      AssetIdsExactly(entries[..|entries| - 1], id, j);
    }
  }

  lemma EventsKnown(before: seq<History>, event: Event)
    ensures event in ImportedEvents(before) <==> exists known :: known in before && known.event == event
  {
  }

  lemma EmployeeLookedUp(rows: seq<EmployeeRow>, id: int, employee: Option<nat>)
    ensures employee == LookUp(EntryIds(Entries(rows)), id) <==>
      forall e: nat :: employee == Some(e) <==> RecordOf(rows, id, e)
  {
    hide EntryIds, Entries, RecordOf;
    forall e: nat
      ensures id in EntryIds(Entries(rows)) && EntryIds(Entries(rows))[id] == e <==> RecordOf(rows, id, e)
    {
      EntryIdsExactly(rows, id, e);
    }
    var found := LookUp(EntryIds(Entries(rows)), id);
    assert forall e: nat :: found == Some(e) <==> RecordOf(rows, id, e);
    if forall e: nat :: employee == Some(e) <==> RecordOf(rows, id, e) {
      if employee.Some? {
        assert RecordOf(rows, id, employee.value);
      } else if found.Some? {
        assert RecordOf(rows, id, found.value);
      }
    }
  }

  lemma AssetLookedUp(source: Source, employeeIds: map<int, nat>, id: int, j: nat)
    requires DistinctAssets(AssetEntries(source, map[]))
    ensures var ids := AssetIds(AssetEntries(source, employeeIds));
      id in ids && ids[id] == j <==> j < |source.assets| && source.assets[j].assetId == id
  {
    hide DistinctAssets, Apart, AssetIds, AssetEntryOf;
    DistinctWithHolders(source, employeeIds);
    var entries := AssetEntries(source, employeeIds);
    forall a | 0 <= a < |entries| ensures entries[a].id == source.assets[a].assetId {
      EntryKeepsAssetId(source.assets[a], source, employeeIds);
    }
    IdsApart(entries);
    AssetIdsExactly(entries, id, j);
  }

  lemma EntryKeepsAssetId(row: AssetRow, source: Source, employeeIds: map<int, nat>)
    ensures AssetEntryOf(row, source, employeeIds).id == row.assetId
  {
  }

  lemma IdsApart(entries: seq<AssetEntry>)
    requires DistinctAssets(entries)
    ensures forall a, b | 0 <= a < b < |entries| :: entries[a].id != entries[b].id
  {
    forall a, b | 0 <= a < b < |entries| ensures entries[a].id != entries[b].id {
      assert Apart(entries[a], entries[b]);
    }
  }

  lemma AssignmentRecorded(source: Source, before: seq<History>, k: nat, h: History)
    requires DistinctAssets(AssetEntries(source, map[]))
    ensures var employees := EntryIds(Entries(source.employees));
      var assets := AssetIds(AssetEntries(source, employees));
      AddsAssignment(source.assignments, ImportedEvents(before), assets, employees, k, h) <==>
      RecordsAssignment(source, before, k, h)
  {
    hide DistinctAssets, AssetIds, AssetEntries, EntryIds, Entries, LookUp, ImportedEvents, RecordOf;
    if k < |source.assignments| {
      var row := source.assignments[k];
      EventsKnown(before, AssignmentEvent(row.id));
      EmployeeLookedUp(source.employees, row.employeeId, h.employee);
      AssetLookedUp(source, EntryIds(Entries(source.employees)), row.assetId, h.asset);
    }
  }

  lemma StatusRecorded(source: Source, before: seq<History>, k: nat, h: History)
    requires DistinctAssets(AssetEntries(source, map[]))
    ensures var assets := AssetIds(AssetEntries(source, EntryIds(Entries(source.employees))));
      AddsStatus(source.statuses, ImportedEvents(before), assets, k, h) <==> RecordsStatus(source, before, k, h)
  {
    hide DistinctAssets, AssetIds, AssetEntries, EntryIds, Entries, ImportedEvents;
    if k < |source.statuses| {
      EventsKnown(before, StatusEvent(source.statuses[k].id));
      AssetLookedUp(source, EntryIds(Entries(source.employees)), source.statuses[k].assetId, h.asset);
    }
  }

  /** The history after a first import is the one before it and the events of just those
      assignments and status changes that were not in it and whose asset is imported, each
      with its asset, its employee and its texts. */
  lemma HistoryExactly(t: Tables, source: Source, h: History)
    requires t.employees == [] && t.assets == [] && DistinctSource(source)
    ensures h in Import(t, source).0.history <==>
      || h in t.history || (exists k: nat :: RecordsAssignment(source, t.history, k, h))
      || exists k: nat :: RecordsStatus(source, t.history, k, h)
  {
    hide Import, RecordsAssignment, RecordsStatus, AddsAssignment, AddsStatus, DistinctAssets, DistinctEmployees;
    hide AssetEntries, Entries, EntryIds, AssetIds, NewAssignments, NewStatuses, EmployeeSettled, AssetSettled;
    var p, st := FirstImport(t, source);
    var imported := ImportedEvents(t.history);
    NewAssignmentsExactly(source.assignments, imported, st.sourceIds, p.sourceIds, h);
    NewStatusesExactly(source.statuses, imported, st.sourceIds, h);
    forall k: nat
      ensures AddsAssignment(source.assignments, imported, st.sourceIds, p.sourceIds, k, h) <==>
              RecordsAssignment(source, t.history, k, h)
      ensures AddsStatus(source.statuses, imported, st.sourceIds, k, h) <==> RecordsStatus(source, t.history, k, h)
    {
      AssignmentRecorded(source, t.history, k, h);
      StatusRecorded(source, t.history, k, h);
    }
  }

  // ---------------------------------------------------------------- over existing records

  /** Row `j` is the last of the table for which `finds` holds. */
  ghost predicate LastAsset(rows: seq<Asset>, finds: Asset -> bool, j: nat) {
    j < |rows| && finds(rows[j]) && forall later | j < later < |rows| :: !finds(rows[later])
  }

  ghost function BySource(id: int): Asset -> bool { (a: Asset) => a.source == "AssetPilot" && a.sourceId == Some(id) }

  ghost function ByTag(tag: string): Asset -> bool { (a: Asset) => Lower(a.tag) == Lower(tag) }

  ghost function ByHostname(name: string): Asset -> bool {
    (a: Asset) => name != "" && a.hostname.Some? && a.hostname.value != "" && Lower(a.hostname.value) == Lower(name)
  }

  ghost function BySerial(serial: string): Asset -> bool {
    (a: Asset) => serial != "" && a.serial.Some? && a.serial.value != "" && Lower(a.serial.value) == Lower(serial)
  }

  lemma {:induction false} IndexesExactly(rows: seq<Asset>, e: AssetEntry, j: nat)
    ensures (SOURCE, e.id) in SourceIndex(rows) && SourceIndex(rows)[(SOURCE, e.id)] == j <==>
      LastAsset(rows, BySource(e.id), j)
    ensures Lower(e.tag) in TagIndex(rows) && TagIndex(rows)[Lower(e.tag)] == j <==> LastAsset(rows, ByTag(e.tag), j)
    ensures var index := HostnameIndex(rows);
      e.hostname != "" && Lower(e.hostname) in index && index[Lower(e.hostname)] == j <==>
      LastAsset(rows, ByHostname(e.hostname), j)
    ensures var index := SerialIndex(rows);
      e.serial != "" && Lower(e.serial) in index && index[Lower(e.serial)] == j <==>
      LastAsset(rows, BySerial(e.serial), j)
    decreases |rows|
  {
    hide Lower;
    if rows != [] {
      var last := |rows| - 1;
      IndexesExactly(rows[..last], e, j);
      LastOfMore(rows, BySource(e.id), j);
      LastOfMore(rows, ByTag(e.tag), j);
      LastOfMore(rows, ByHostname(e.hostname), j);
      LastOfMore(rows, BySerial(e.serial), j);
    }
  }

  lemma LastOfMore(rows: seq<Asset>, finds: Asset -> bool, j: nat)
    requires rows != []
    ensures var last := |rows| - 1;
      LastAsset(rows, finds, j) <==> if finds(rows[last]) then j == last else LastAsset(rows[..last], finds, j)
  {
  }

  /** The row is that of asset `j`: the one of its source id, or else the last one with its
      tag, its hostname or its serial number, in that order. */
  ghost predicate RowOf(rows: seq<Asset>, e: AssetEntry, j: nat) {
    if !NoAsset(rows, BySource(e.id)) then LastAsset(rows, BySource(e.id), j)
    else if !NoAsset(rows, ByTag(e.tag)) then LastAsset(rows, ByTag(e.tag), j)
    else if !NoAsset(rows, ByHostname(e.hostname)) then LastAsset(rows, ByHostname(e.hostname), j)
    else LastAsset(rows, BySerial(e.serial), j)
  }

  /** On any inventory, a row overwrites the asset that it is the row of, and is a new one
      when there is none. */
  lemma FoundOnTables(rows: seq<Asset>, departments: Names, locations: Names, e: AssetEntry, j: nat)
    ensures StockOk(StockFrom(rows, departments, locations))
    ensures var id := AssetId(StockFrom(rows, departments, locations), e);
      && (j < |rows| ==> (id == j <==> RowOf(rows, e, j)))
      && (id == |rows| <==> NoAsset(rows, BySource(e.id)) && NoAsset(rows, ByTag(e.tag))
                            && NoAsset(rows, ByHostname(e.hostname)) && NoAsset(rows, BySerial(e.serial)))
  {
    hide Lower, SourceIndex, TagIndex, HostnameIndex, SerialIndex, NoAsset, BySource, ByTag, ByHostname, BySerial;
    AssetIndexesPoint(rows);
    forall i: nat
      ensures (SOURCE, e.id) in SourceIndex(rows) && SourceIndex(rows)[(SOURCE, e.id)] == i <==>
              LastAsset(rows, BySource(e.id), i)
      ensures Lower(e.tag) in TagIndex(rows) && TagIndex(rows)[Lower(e.tag)] == i <==> LastAsset(rows, ByTag(e.tag), i)
      ensures var index := HostnameIndex(rows);
        e.hostname != "" && Lower(e.hostname) in index && index[Lower(e.hostname)] == i <==>
        LastAsset(rows, ByHostname(e.hostname), i)
      ensures var index := SerialIndex(rows);
        e.serial != "" && Lower(e.serial) in index && index[Lower(e.serial)] == i <==>
        LastAsset(rows, BySerial(e.serial), i)
    {
      IndexesExactly(rows, e, i);
    }
    LastOrNone(rows, BySource(e.id));
    LastOrNone(rows, ByTag(e.tag));
    LastOrNone(rows, ByHostname(e.hostname));
    LastOrNone(rows, BySerial(e.serial));
    var names, serials := HostnameIndex(rows), SerialIndex(rows);
    assert (SOURCE, e.id) in SourceIndex(rows) ==> LastAsset(rows, BySource(e.id), SourceIndex(rows)[(SOURCE, e.id)]);
    assert Lower(e.tag) in TagIndex(rows) ==> LastAsset(rows, ByTag(e.tag), TagIndex(rows)[Lower(e.tag)]);
    assert e.hostname != "" && Lower(e.hostname) in names ==>
      LastAsset(rows, ByHostname(e.hostname), names[Lower(e.hostname)]);
    assert e.serial != "" && Lower(e.serial) in serials ==>
      LastAsset(rows, BySerial(e.serial), serials[Lower(e.serial)]);
  }

  ghost predicate NoAsset(rows: seq<Asset>, finds: Asset -> bool) {
    forall i | 0 <= i < |rows| :: !finds(rows[i])
  }

  lemma {:induction false} LastOrNone(rows: seq<Asset>, finds: Asset -> bool)
    ensures NoAsset(rows, finds) <==> forall j: nat :: !LastAsset(rows, finds, j)
    decreases |rows|
  {
    if rows != [] {
      var last := |rows| - 1;
      LastOrNone(rows[..last], finds);
      forall j: nat ensures LastAsset(rows, finds, j) <==>
                            if finds(rows[last]) then j == last else LastAsset(rows[..last], finds, j)
      {
        LastOfMore(rows, finds, j);
      }
      if finds(rows[last]) {
        assert LastAsset(rows, finds, last);
      }
    }
  }

  ghost predicate LastEmployee(rows: seq<Employee>, finds: Employee -> bool, j: nat) {
    j < |rows| && finds(rows[j]) && forall later | j < later < |rows| :: !finds(rows[later])
  }

  ghost function ByNumber(number: string): Employee -> bool { (e: Employee) => Lower(e.number) == Lower(number) }

  ghost function ByEmail(email: string): Employee -> bool { (e: Employee) => Lower(e.email) == Lower(email) }

  lemma {:induction false} EmployeeIndexesExactly(rows: seq<Employee>, number: string, email: string, j: nat)
    ensures Lower(number) in NumberIndex(rows) && NumberIndex(rows)[Lower(number)] == j <==>
      LastEmployee(rows, ByNumber(number), j)
    ensures Lower(email) in EmailIndex(rows) && EmailIndex(rows)[Lower(email)] == j <==>
      LastEmployee(rows, ByEmail(email), j)
    decreases |rows|
  {
    hide Lower;
    if rows != [] {
      EmployeeIndexesExactly(rows[..|rows| - 1], number, email, j);
      LastOfMoreEmployees(rows, ByNumber(number), j);
      LastOfMoreEmployees(rows, ByEmail(email), j);
    }
  }

  lemma LastOfMoreEmployees(rows: seq<Employee>, finds: Employee -> bool, j: nat)
    requires rows != []
    ensures var last := |rows| - 1;
      LastEmployee(rows, finds, j) <==> if finds(rows[last]) then j == last else LastEmployee(rows[..last], finds, j)
  {
  }

  /** On any employee table, a row is first looked for by its number and only then by its
      email; the last record with it is taken. */
  lemma EmployeeFoundOnTables(t: Tables, e: EmployeeEntry, j: nat)
    ensures PeopleOk(PeopleFrom(t))
    ensures FindEmployee(PeopleFrom(t), e) == Some(j) <==>
      || LastEmployee(t.employees, ByNumber(e.number), j)
      || ((forall i: nat :: !LastEmployee(t.employees, ByNumber(e.number), i))
          && LastEmployee(t.employees, ByEmail(e.email), j))
  {
    hide Lower, NumberIndex, EmailIndex, NameIndex, LastEmployee, ByNumber, ByEmail;
    PeopleFromOk(t);
    forall i: nat
      ensures Lower(e.number) in NumberIndex(t.employees) && NumberIndex(t.employees)[Lower(e.number)] == i <==>
              LastEmployee(t.employees, ByNumber(e.number), i)
      ensures Lower(e.email) in EmailIndex(t.employees) && EmailIndex(t.employees)[Lower(e.email)] == i <==>
              LastEmployee(t.employees, ByEmail(e.email), i)
    {
      EmployeeIndexesExactly(t.employees, e.number, e.email, i);
    }
    assert Lower(e.number) in NumberIndex(t.employees) ==>
      LastEmployee(t.employees, ByNumber(e.number), NumberIndex(t.employees)[Lower(e.number)]);
  }

  /** An update overwrites a record of AssetPilot's, except that a blank department or
      location leaves it alone; in any other record it only fills in what is missing. */
  lemma UpdateKeepsOthers(e: Employee, values: Employee)
    ensures var after, own := Updated(e, values), e.source == "AssetPilot";
      && after.number == (if own || e.number == "" then values.number else e.number)
      && after.firstName == (if own || e.firstName == "" then values.firstName else e.firstName)
      && after.lastName == (if own || e.lastName == "" then values.lastName else e.lastName)
      && after.preferred == (if own || e.preferred == "" then values.preferred else e.preferred)
      && after.email == (if own || e.email == "" then values.email else e.email)
      && after.status == (if own || e.status == "" then values.status else e.status)
      && after.source == (if own || e.source == "" then values.source else e.source)
      && after.department == (if values.department.Some? && (own || e.department.None?) then values.department
                              else e.department)
      && after.location == (if values.location.Some? && (own || e.location.None?) then values.location else e.location)
      && after.user == e.user
  {
  }
}
