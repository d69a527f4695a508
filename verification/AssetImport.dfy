/** The one-way import of employees, assets and their history from AssetPilot.

    Tables are sequences and a row's index is its id; nothing is ever removed.  The
    lookup dictionaries of the import map case-folded keys to those ids.  Source
    rows come in the order the program reads them, and absent text is empty. */
module AssetImport {
  import opened Wrappers
  import opened Text

  const SOURCE := "AssetPilot"
  const INVALID := "@invalid.local"

  // ---------------------------------------------------------------- the source

  datatype EmployeeRow = EmployeeRow(employeeId: int, number: string, email: string, displayName: string,
                                     department: string, location: string, active: bool, deleted: bool)

  /** `columns` are the texts copied as they are, by column name. */
  datatype AssetRow = AssetRow(assetId: int, tag: string, hostname: string, serial: string, department: string,
                               location: string, columns: map<string, string>)

  datatype AssignmentRow = AssignmentRow(id: int, assetId: int, employeeId: int, returned: bool, notes: string)

  datatype StatusRow = StatusRow(id: int, assetId: int, before: string, after: string)

  datatype AddressRow = AddressRow(assetId: int, address: string)

  datatype Source = Source(employees: seq<EmployeeRow>, assets: seq<AssetRow>, assignments: seq<AssignmentRow>,
                           statuses: seq<StatusRow>, addresses: seq<AddressRow>)

  // ---------------------------------------------------------------- the tables

  datatype Employee = Employee(number: string, firstName: string, lastName: string, preferred: string, email: string,
                               department: Option<nat>, location: Option<nat>, status: string, source: string,
                               user: Option<nat>)

  datatype Asset = Asset(tag: string, hostname: Option<string>, serial: Option<string>, department: Option<nat>,
                         location: Option<nat>, employee: Option<nat>, source: string, sourceId: Option<int>,
                         columns: map<string, string>, addresses: seq<AddressRow>)

  datatype Event = AssignmentEvent(id: int) | StatusEvent(id: int)

  datatype History = History(asset: nat, event: Event, employee: Option<nat>, notes: seq<string>)

  /** Names of departments or locations, with the dictionary that mirrors them. */
  datatype Names = Names(rows: seq<string>, index: map<string, nat>)

  datatype Tables = Tables(departments: seq<string>, locations: seq<string>, employees: seq<Employee>,
                           users: seq<string>, assets: seq<Asset>, history: seq<History>)

  datatype Counts = Counts(employeesCreated: nat, employeesUpdated: nat, assetsCreated: nat, assetsUpdated: nat,
                           historyCreated: nat)

  // ---------------------------------------------------------------- names

  function NameIndex(rows: seq<string>): map<string, nat> {
    if rows == [] then map[] else NameIndex(rows[..|rows| - 1])[Lower(rows[|rows| - 1]) := |rows| - 1]
  }

  /** The id of a name, created when it is new; no name has no id. */
  function NameId(n: Names, name: string): Option<nat> {
    if name == "" then None
    else if Lower(name) in n.index then Some(n.index[Lower(name)])
    else Some(|n.rows|)
  }

  function WithName(n: Names, name: string): Names {
    if name == "" || Lower(name) in n.index then n
    else Names(n.rows + [name], n.index[Lower(name) := |n.rows|])
  }

  // ---------------------------------------------------------------- employees

  function IdText(id: int): string {
    if id < 0 then "-" + Decimal(-id) else Decimal(id)
  }

  function OrElse(text: string, fallback: string): string {
    if Strip(text) != "" then Strip(text) else fallback
  }

  function BeforeComma(s: string): string {
    if s == [] || s[0] == ',' then [] else [s[0]] + BeforeComma(s[1..])
  }

  /** First and last name from a display name. */
  function SplitName(display: string): (string, string) {
    var name := Strip(display);
    var head := BeforeComma(name);
    if |head| < |name| then
      var first := Strip(name[|head| + 1..]);
      (if first != "" then first else name, Strip(head))
    else
      var word := FirstWord(name);
      var rest := Collapsed(name[|word|..]);
      if rest == "" then (name, "") else (word, rest)
  }

  /** A row after its texts are cleaned and its missing keys are filled in. */
  datatype EmployeeEntry = EmployeeEntry(id: int, number: string, email: string, firstName: string, lastName: string,
                                         status: string, department: string, location: string)

  function EntryOf(row: EmployeeRow): EmployeeEntry {
    var number := OrElse(row.number, "ASSETPILOT-" + IdText(row.employeeId));
    var (first, last) := SplitName(OrElse(row.displayName, number));
    EmployeeEntry(row.employeeId, number,
                  Lower(OrElse(row.email, "assetpilot-" + IdText(row.employeeId) + INVALID)), first, last,
                  if row.active && !row.deleted then "Active" else "Inactive",
                  Strip(row.department), Strip(row.location))
  }

  /** The record an entry stands for, before its user is known. */
  function EmployeeValues(e: EmployeeEntry, department: Option<nat>, location: Option<nat>): Employee {
    Employee(e.number, e.firstName, e.lastName, e.firstName, e.email, department, location, e.status, SOURCE, None)
  }

  /** An existing record keeps what other sources wrote into it. */
  function Updated(e: Employee, values: Employee): Employee {
    var own := e.source == SOURCE;
    var text := (before: string, after: string) => if own || before == "" then after else before;
    var id := (before: Option<nat>, after: Option<nat>) =>
      if after.Some? && (own || before.None?) then after else before;
    Employee(text(e.number, values.number), text(e.firstName, values.firstName), text(e.lastName, values.lastName),
             text(e.preferred, values.preferred), text(e.email, values.email), id(e.department, values.department),
             id(e.location, values.location), text(e.status, values.status), text(e.source, values.source), e.user)
  }

  function NumberIndex(rows: seq<Employee>): map<string, nat> {
    if rows == [] then map[] else NumberIndex(rows[..|rows| - 1])[Lower(rows[|rows| - 1].number) := |rows| - 1]
  }

  function EmailIndex(rows: seq<Employee>): map<string, nat> {
    if rows == [] then map[] else EmailIndex(rows[..|rows| - 1])[Lower(rows[|rows| - 1].email) := |rows| - 1]
  }

  predicate EndsWith(s: string, end: string) {
    |end| <= |s| && s[|s| - |end|..] == end
  }

  /** The employee gets a login: a usable work email and active employment. */
  predicate Employable(e: Employee) {
    var email := Lower(Strip(e.email));
    email != "" && !EndsWith(email, INVALID) && Lower(e.status) == "active"
  }

  /** The first user with the email. */
  function FindUser(users: seq<string>, email: string): Option<nat> {
    if users == [] then None
    else
      var earlier := FindUser(users[..|users| - 1], email);
      if earlier.Some? then earlier
      else if Lower(users[|users| - 1]) == email then Some(|users| - 1) else None
  }

  /** The login of an employee and the user table that holds it. */
  function EnsureUser(users: seq<string>, e: Employee): (seq<string>, Option<nat>) {
    var email := Lower(Strip(e.email));
    var found := FindUser(users, email);
    if !Employable(e) then (users, None)
    else if found.Some? then (users, found)
    else (users + [email], Some(|users|))
  }

  /** Ensuring a login twice creates it once, and only an employee with a usable work
      email and active employment gets one. */
  lemma EnsureUserOnce(users: seq<string>, e: Employee)
    ensures var (once, user) := EnsureUser(users, e);
      && EnsureUser(once, e) == (once, user)
      && (user.Some? <==> Employable(e))
      && (user.Some? ==> user.value < |once| && Lower(once[user.value]) == Lower(Strip(e.email)))
      && users <= once
  {
    hide Strip, Employable;
    var email := Lower(Strip(e.email));
    LowerTwice(Strip(e.email));
    FoundUser(users, email);
    FoundUser(users + [email], email);
    assert (users + [email])[..|users|] == users;
  }

  lemma {:induction false} FoundUser(users: seq<string>, email: string)
    ensures var r := FindUser(users, email);
      r.Some? ==> r.value < |users| && Lower(users[r.value]) == email
  {
    if users != [] {
      FoundUser(users[..|users| - 1], email);
    }
  }

  datatype People = People(departments: Names, locations: Names, employees: seq<Employee>, users: seq<string>,
                           byNumber: map<string, nat>, byEmail: map<string, nat>, userByEmail: map<string, nat>,
                           sourceIds: map<int, nat>, created: nat, updated: nat)

  /** The dictionaries only point at records that exist. */
  ghost predicate PeopleOk(p: People) {
    && (forall k | k in p.byNumber :: p.byNumber[k] < |p.employees|)
    && (forall k | k in p.byEmail :: p.byEmail[k] < |p.employees|)
  }

  /** The record the dictionaries find for an entry. */
  function FindEmployee(p: People, e: EmployeeEntry): (r: Option<nat>)
    requires PeopleOk(p)
    ensures r.Some? ==> r.value < |p.employees|
  {
    if Lower(e.number) in p.byNumber then Some(p.byNumber[Lower(e.number)])
    else if Lower(e.email) in p.byEmail then Some(p.byEmail[Lower(e.email)])
    else None
  }

  /** The id of the record an entry is stored in. */
  function EmployeeId(p: People, e: EmployeeEntry): nat
    requires PeopleOk(p)
  {
    var found := FindEmployee(p, e);
    if found.Some? then found.value else |p.employees|
  }

  /** The tables with the record of an entry created or updated. */
  function Stored(p: People, e: EmployeeEntry): (r: People)
    requires PeopleOk(p)
    ensures PeopleOk(r) && EmployeeId(p, e) < |r.employees|
  {
    var values := EmployeeValues(e, NameId(p.departments, e.department), NameId(p.locations, e.location));
    var m := p.(departments := WithName(p.departments, e.department), locations := WithName(p.locations, e.location));
    var id := EmployeeId(p, e);
    if id == |p.employees| then
      m.(employees := p.employees + [values], byNumber := p.byNumber[Lower(e.number) := id],
         byEmail := p.byEmail[Lower(e.email) := id], created := p.created + 1)
    else
      m.(employees := p.employees[id := Updated(p.employees[id], values)], updated := p.updated + 1)
  }

  /** The login the dictionary or the user table has for a record. */
  function UserOf(p: People, email: string, e: Employee): (seq<string>, Option<nat>) {
    if Lower(email) in p.userByEmail then (p.users, Some(p.userByEmail[Lower(email)])) else EnsureUser(p.users, e)
  }

  /** The tables with the record linked to its login. */
  function Linked(p: People, e: EmployeeEntry, id: nat): (r: People)
    requires PeopleOk(p) && id < |p.employees|
    ensures PeopleOk(r) && |r.employees| == |p.employees|
  {
    var (users, user) := UserOf(p, e.email, p.employees[id]);
    var known := p.(users := users, sourceIds := p.sourceIds[e.id := id]);
    if user.None? then known
    else known.(userByEmail := p.userByEmail[Lower(e.email) := user.value],
                employees := p.employees[id := p.employees[id].(user := user)])
  }

  function EmployeeStep(p: People, e: EmployeeEntry): (r: People)
    requires PeopleOk(p)
    ensures PeopleOk(r)
  {
    Linked(Stored(p, e), e, EmployeeId(p, e))
  }

  /** The import of the employees, entry by entry. */
  function ImportEmployees(p: People, entries: seq<EmployeeEntry>): (r: People)
    requires PeopleOk(p)
    ensures PeopleOk(r)
  {
    if entries == [] then p
    else EmployeeStep(ImportEmployees(p, entries[..|entries| - 1]), entries[|entries| - 1])
  }

  // ---------------------------------------------------------------- employees, once and again

  /** The dictionaries mirror the tables. */
  ghost predicate PeopleMirrored(p: People) {
    && p.departments.index == NameIndex(p.departments.rows)
    && p.locations.index == NameIndex(p.locations.rows)
    && p.byNumber == NumberIndex(p.employees)
    && p.byEmail == EmailIndex(p.employees)
    && p.userByEmail == NameIndex(p.users)
  }

  ghost predicate Known(n: Names, name: string) { name == "" || Lower(name) in n.index }

  /** Record `j` holds just what the entry stands for, found by its number. */
  ghost predicate EmployeeSettled(p: People, e: EmployeeEntry, j: nat) {
    && j < |p.employees|
    && Lower(e.number) in p.byNumber && p.byNumber[Lower(e.number)] == j
    && Known(p.departments, e.department) && Known(p.locations, e.location)
    && p.employees[j] == EmployeeValues(e, NameId(p.departments, e.department), NameId(p.locations, e.location))
                           .(user := p.employees[j].user)
    && UserSettled(p, e, p.employees[j])
  }

  /** The record has the login the dictionary has, or can have none. */
  ghost predicate UserSettled(p: People, e: EmployeeEntry, r: Employee) {
    if Lower(e.email) in p.userByEmail then r.user == Some(p.userByEmail[Lower(e.email)])
    else r.user == None && !Employable(r)
  }

  /** Importing a settled entry again changes no table. */
  lemma SettledEmployeeStays(p: People, e: EmployeeEntry, j: nat)
    requires PeopleOk(p) && EmployeeSettled(p, e, j)
    ensures EmployeeStep(p, e) == p.(sourceIds := p.sourceIds[e.id := j], updated := p.updated + 1)
  {
    hide Lower, Employable;
    var values := EmployeeValues(e, NameId(p.departments, e.department), NameId(p.locations, e.location));
    assert Updated(p.employees[j], values) == p.employees[j];
    assert p.employees[j := p.employees[j]] == p.employees;
    assert Stored(p, e) == p.(updated := p.updated + 1);
    if Lower(e.email) in p.userByEmail {
      assert p.userByEmail[Lower(e.email) := p.userByEmail[Lower(e.email)]] == p.userByEmail;
    }
  }

  /** Nothing the dictionaries know is forgotten or redirected. */
  ghost predicate PeopleExtend(p: People, q: People) {
    && p.employees <= q.employees
    && (forall k | k in p.departments.index ::
          k in q.departments.index && q.departments.index[k] == p.departments.index[k])
    && (forall k | k in p.locations.index :: k in q.locations.index && q.locations.index[k] == p.locations.index[k])
    && (forall k | k in p.byNumber :: k in q.byNumber && q.byNumber[k] == p.byNumber[k])
    && (forall k | k in p.userByEmail :: k in q.userByEmail && q.userByEmail[k] == p.userByEmail[k])
  }

  lemma SettledEmployeeKept(p: People, q: People, e: EmployeeEntry, j: nat)
    requires EmployeeSettled(p, e, j) && PeopleExtend(p, q)
    requires Lower(e.email) in q.userByEmail ==> Lower(e.email) in p.userByEmail
    ensures EmployeeSettled(q, e, j)
  {
    hide Lower, Employable;
  }

  ghost predicate EmployeeFresh(p: People, e: EmployeeEntry) {
    Lower(e.number) !in p.byNumber && Lower(e.email) !in p.byEmail
  }

  ghost predicate CleanEmail(e: EmployeeEntry) { Lower(Strip(e.email)) == e.email && Lower(e.email) == e.email }

  lemma NameIndexFinds(rows: seq<string>, key: string)
    ensures (key in NameIndex(rows)) == FindUser(rows, key).Some?
  {
  }

  lemma NameIndexGrows(rows: seq<string>, name: string)
    ensures NameIndex(rows + [name]) == NameIndex(rows)[Lower(name) := |rows|]
  {
    hide Lower;
    assert (rows + [name])[..|rows|] == rows;
  }

  lemma NewName(n: Names, name: string)
    requires n.index == NameIndex(n.rows)
    ensures WithName(n, name).index == NameIndex(WithName(n, name).rows) && Known(WithName(n, name), name)
    ensures NameId(n, name) == NameId(WithName(n, name), name)
    ensures forall k | k in n.index :: k in WithName(n, name).index && WithName(n, name).index[k] == n.index[k]
  {
    hide Lower, NameIndex;
    NameIndexGrows(n.rows, name);
  }

  lemma EmployeeIndexesGrow(rows: seq<Employee>, e: Employee)
    ensures NumberIndex(rows + [e]) == NumberIndex(rows)[Lower(e.number) := |rows|]
    ensures EmailIndex(rows + [e]) == EmailIndex(rows)[Lower(e.email) := |rows|]
  {
    hide Lower;
    assert (rows + [e])[..|rows|] == rows;
  }

  /** A fresh entry gets a record that holds what it says. */
  lemma FreshEmployeeStored(p: People, e: EmployeeEntry)
    requires PeopleOk(p) && PeopleMirrored(p) && EmployeeFresh(p, e)
    ensures var s := Stored(p, e);
      && s.employees ==
           p.employees + [EmployeeValues(e, NameId(p.departments, e.department), NameId(p.locations, e.location))]
      && PeopleMirrored(s) && Known(s.departments, e.department) && Known(s.locations, e.location)
      && NameId(s.departments, e.department) == NameId(p.departments, e.department)
      && NameId(s.locations, e.location) == NameId(p.locations, e.location)
      && s.byNumber == p.byNumber[Lower(e.number) := |p.employees|]
      && s.created == p.created + 1 && s.updated == p.updated && s.sourceIds == p.sourceIds
      && s.users == p.users && s.userByEmail == p.userByEmail
      && PeopleExtend(p, s)
  {
    hide Lower, NameIndex, NumberIndex, EmailIndex, WithName, NameId, Known;
    NewName(p.departments, e.department);
    NewName(p.locations, e.location);
    EmployeeIndexesGrow(p.employees,
                        EmployeeValues(e, NameId(p.departments, e.department), NameId(p.locations, e.location)));
  }

  lemma UserLinked(p: People, e: EmployeeEntry, r: Employee)
    requires p.userByEmail == NameIndex(p.users) && CleanEmail(e) && r.email == e.email && r.user == None
    ensures var (users, user) := UserOf(p, e.email, r);
      var index := if user.Some? then p.userByEmail[e.email := user.value] else p.userByEmail;
      && index == NameIndex(users)
      && (forall k | k in p.userByEmail :: k in index && index[k] == p.userByEmail[k])
      && (if user.Some? then e.email in index && index[e.email] == user.value
          else e.email !in index && !Employable(r))
  {
    hide Lower, Strip, NameIndex, FindUser, Employable;
    NameIndexFinds(p.users, e.email);
    NameIndexGrows(p.users, e.email);
  }

  /** Linking the new last record keeps the mirror and settles its entry. */
  lemma FreshEmployeeLinked(s: People, e: EmployeeEntry, id: nat)
    requires PeopleOk(s) && PeopleMirrored(s) && CleanEmail(e) && id < |s.employees|
    requires s.employees[id] == EmployeeValues(e, NameId(s.departments, e.department), NameId(s.locations, e.location))
    requires Known(s.departments, e.department) && Known(s.locations, e.location)
    requires Lower(e.number) in s.byNumber && s.byNumber[Lower(e.number)] == id
    ensures var q := Linked(s, e, id);
      && PeopleMirrored(q) && EmployeeSettled(q, e, id)
      && q.employees[..id] == s.employees[..id] && |q.employees| == |s.employees|
      && q.departments == s.departments && q.locations == s.locations && q.byNumber == s.byNumber
      && q.sourceIds == s.sourceIds[e.id := id] && q.created == s.created && q.updated == s.updated
      && (forall k | k in s.userByEmail :: k in q.userByEmail && q.userByEmail[k] == s.userByEmail[k])
      && (forall k | k in q.userByEmail :: k in s.userByEmail || k == Lower(e.email))
  {
    hide Lower, Strip, Employable, UserOf, NameIndex;
    UserLinked(s, e, s.employees[id]);
    SameIndexes(s.employees, Linked(s, e, id).employees);
  }

  /** The dictionaries only depend on numbers and emails. */
  lemma {:induction false} SameIndexes(a: seq<Employee>, b: seq<Employee>)
    requires |a| == |b| && forall i | 0 <= i < |a| :: a[i].number == b[i].number && a[i].email == b[i].email
    ensures NumberIndex(a) == NumberIndex(b) && EmailIndex(a) == EmailIndex(b)
  {
    if a != [] {
      SameIndexes(a[..|a| - 1], b[..|b| - 1]);
    }
  }

  /** A fresh entry creates one record, is settled, and disturbs nothing before it. */
  lemma FreshEmployeeStep(p: People, e: EmployeeEntry)
    requires PeopleOk(p) && PeopleMirrored(p) && EmployeeFresh(p, e) && CleanEmail(e)
    ensures var q := EmployeeStep(p, e);
      && PeopleMirrored(q) && EmployeeSettled(q, e, |p.employees|) && PeopleExtend(p, q)
      && (forall k | k in q.userByEmail :: k in p.userByEmail || k == Lower(e.email))
      && |q.employees| == |p.employees| + 1
      && q.created == p.created + 1 && q.updated == p.updated && q.sourceIds == p.sourceIds[e.id := |p.employees|]
  {
    hide Lower, Strip, Employable, UserOf, NameIndex, NumberIndex, EmailIndex, Linked, Stored, NameId, Known;
    var s := Stored(p, e);
    FreshEmployeeStored(p, e);
    FreshEmployeeLinked(s, e, |p.employees|);
    assert Linked(s, e, |p.employees|).employees[..|p.employees|] == p.employees;
  }

  /** Entries with distinct case-folded numbers and emails. */
  ghost predicate DistinctEmployees(entries: seq<EmployeeEntry>) {
    && (forall i, j | 0 <= i < j < |entries| :: Lower(entries[i].number) != Lower(entries[j].number))
    && (forall i, j | 0 <= i < j < |entries| :: Lower(entries[i].email) != Lower(entries[j].email))
  }

  lemma {:induction false} IndexKeys(rows: seq<Employee>)
    ensures forall k | k in NumberIndex(rows) :: exists j | 0 <= j < |rows| :: Lower(rows[j].number) == k
    ensures forall k | k in EmailIndex(rows) :: exists j | 0 <= j < |rows| :: Lower(rows[j].email) == k
  {
    if rows != [] {
      IndexKeys(rows[..|rows| - 1]);
    }
  }

  /** The ids the entries are found under. */
  ghost function EntryIds(entries: seq<EmployeeEntry>): map<int, nat> {
    if entries == [] then map[] else EntryIds(entries[..|entries| - 1])[entries[|entries| - 1].id := |entries| - 1]
  }

  /** The first import into an empty employee table creates one settled record for
      every entry, and its dictionaries mirror the tables throughout. */
  lemma {:induction false} FirstEmployeeImport(p: People, entries: seq<EmployeeEntry>)
    requires PeopleOk(p) && PeopleMirrored(p) && p.employees == [] && DistinctEmployees(entries)
    requires p.created == 0 && p.updated == 0 && p.sourceIds == map[]
    requires forall i | 0 <= i < |entries| :: CleanEmail(entries[i])
    ensures var q := ImportEmployees(p, entries);
      && PeopleMirrored(q) && |q.employees| == |entries|
      && (forall j | 0 <= j < |entries| :: EmployeeSettled(q, entries[j], j))
      && q.created == |entries| && q.updated == 0 && q.sourceIds == EntryIds(entries)
    decreases |entries|
  {
    hide Lower, Strip, EmployeeSettled, EmployeeStep, PeopleMirrored;
    if entries != [] {
      var before, e := entries[..|entries| - 1], entries[|entries| - 1];
      FirstEmployeeImport(p, before);
      var q := ImportEmployees(p, before);
      assert forall j | 0 <= j < |before| :: entries[j] == before[j];
      LastIsFresh(q, entries);
      FreshEmployeeStep(q, e);
      forall j | 0 <= j < |before| ensures EmployeeSettled(EmployeeStep(q, e), entries[j], j) {
        SettledEmployeeKept(q, EmployeeStep(q, e), before[j], j);
      }
    }
  }

  lemma LastIsFresh(q: People, entries: seq<EmployeeEntry>)
    requires entries != [] && DistinctEmployees(entries) && PeopleMirrored(q) && |q.employees| == |entries| - 1
    requires forall j | 0 <= j < |entries| - 1 :: EmployeeSettled(q, entries[j], j)
    ensures EmployeeFresh(q, entries[|entries| - 1])
  {
    hide Lower, NumberIndex, EmailIndex, NameIndex, UserSettled;
    IndexKeys(q.employees);
    forall j | 0 <= j < |entries| - 1
      ensures q.employees[j].number == entries[j].number && q.employees[j].email == entries[j].email
    {
      assert EmployeeSettled(q, entries[j], j);
    }
  }

  /** The number and the email dictionary both find record `j` for the entry. */
  ghost predicate EmployeeFound(p: People, e: EmployeeEntry, j: nat) {
    && Lower(e.number) in p.byNumber && p.byNumber[Lower(e.number)] == j
    && Lower(e.email) in p.byEmail && p.byEmail[Lower(e.email)] == j
  }

  lemma {:induction false} EmployeeIndexesFind(rows: seq<Employee>, entries: seq<EmployeeEntry>, j: nat)
    requires j < |rows| <= |entries| && DistinctEmployees(entries)
    requires forall i | 0 <= i < |rows| :: rows[i].number == entries[i].number && rows[i].email == entries[i].email
    ensures Lower(entries[j].number) in NumberIndex(rows) && NumberIndex(rows)[Lower(entries[j].number)] == j
    ensures Lower(entries[j].email) in EmailIndex(rows) && EmailIndex(rows)[Lower(entries[j].email)] == j
  {
    hide Lower;
    if j < |rows| - 1 {
      EmployeeIndexesFind(rows[..|rows| - 1], entries, j);
    }
  }

  /** At every point of a first import of distinct rows, both dictionaries find the
      record of every row so far. */
  lemma EmployeesFoundSoFar(p: People, entries: seq<EmployeeEntry>, k: nat, j: nat)
    requires PeopleOk(p) && PeopleMirrored(p) && p.employees == [] && DistinctEmployees(entries)
    requires p.created == 0 && p.updated == 0 && p.sourceIds == map[]
    requires forall i | 0 <= i < |entries| :: CleanEmail(entries[i])
    requires j < k <= |entries|
    ensures EmployeeFound(ImportEmployees(p, entries[..k]), entries[j], j)
  {
    hide CleanEmail, ImportEmployees, PeopleOk, PeopleMirrored, EmployeeSettled, EmployeeFound, EntryIds;
    FirstEmployeeImport(p, entries[..k]);
    SettledAreFound(ImportEmployees(p, entries[..k]), entries[..k], j);
  }

  lemma SettledAreFound(q: People, entries: seq<EmployeeEntry>, j: nat)
    requires PeopleMirrored(q) && |q.employees| == |entries| && DistinctEmployees(entries) && j < |entries|
    requires forall i | 0 <= i < |entries| :: EmployeeSettled(q, entries[i], i)
    ensures EmployeeFound(q, entries[j], j)
  {
    hide Lower, NumberIndex, EmailIndex, NameIndex, UserSettled, Known, NameId, DistinctEmployees;
    forall i | 0 <= i < |entries|
      ensures q.employees[i].number == entries[i].number && q.employees[i].email == entries[i].email
    {
      assert EmployeeSettled(q, entries[i], i);
    }
    EmployeeIndexesFind(q.employees, entries, j);
  }

  lemma CountersDoNotMatter(p: People, e: EmployeeEntry, j: nat, ids: map<int, nat>, updated: nat)
    requires PeopleOk(p) && EmployeeSettled(p, e, j)
    ensures PeopleOk(p.(sourceIds := ids, updated := updated))
    ensures EmployeeSettled(p.(sourceIds := ids, updated := updated), e, j)
  {
  }

  /** Importing settled entries again leaves every table as it is. */
  lemma {:induction false} SettledEmployeesStay(p: People, entries: seq<EmployeeEntry>)
    requires PeopleOk(p) && p.sourceIds == map[] && p.updated == 0
    requires forall j | 0 <= j < |entries| :: EmployeeSettled(p, entries[j], j)
    ensures ImportEmployees(p, entries) == p.(sourceIds := EntryIds(entries), updated := |entries|)
    decreases |entries|
  {
    hide EmployeeStep, EmployeeSettled, PeopleOk;
    if entries != [] {
      var before, e := entries[..|entries| - 1], entries[|entries| - 1];
      SettledEmployeesStay(p, before);
      var q := p.(sourceIds := EntryIds(before), updated := |before|);
      CountersDoNotMatter(p, e, |before|, EntryIds(before), |before|);
      SettledEmployeeStays(q, e, |before|);
    }
  }

  // ---------------------------------------------------------------- assets

  /** An asset row after its texts are cleaned, with its holder and its addresses. */
  datatype AssetEntry = AssetEntry(id: int, tag: string, hostname: string, serial: string, department: string,
                                   location: string, columns: map<string, string>, employee: Option<nat>,
                                   addresses: seq<AddressRow>)

  /** The text stored for a column that is empty in the source. */
  function ColumnDefault(column: string, tag: string): string {
    if column == "Name" then tag
    else if column == "Category" then "Computer"
    else if column == "AssetType" then "Other"
    else if column == "Status" then "Active"
    else if column == "Condition" then "Good"
    else ""
  }

  /** The assignment in force: the last one that was not returned. */
  function ActiveAssignment(rows: seq<AssignmentRow>, assetId: int): Option<AssignmentRow> {
    if rows == [] then None
    else
      var last := rows[|rows| - 1];
      if last.assetId == assetId && !last.returned then Some(last) else ActiveAssignment(rows[..|rows| - 1], assetId)
  }

  function AddressesOf(rows: seq<AddressRow>, assetId: int): seq<AddressRow> {
    if rows == [] then []
    else
      AddressesOf(rows[..|rows| - 1], assetId) +
      if rows[|rows| - 1].assetId == assetId then [rows[|rows| - 1]] else []
  }

  function AssetEntryOf(row: AssetRow, source: Source, employeeIds: map<int, nat>): AssetEntry {
    var tag := OrElse(row.tag, "ASSETPILOT-" + IdText(row.assetId));
    var assignment := ActiveAssignment(source.assignments, row.assetId);
    AssetEntry(row.assetId, tag, Strip(row.hostname), Strip(row.serial), Strip(row.department), Strip(row.location),
               map column | column in row.columns :: OrElse(row.columns[column], ColumnDefault(column, tag)),
               if assignment.Some? && assignment.value.employeeId in employeeIds
               then Some(employeeIds[assignment.value.employeeId]) else None,
               AddressesOf(source.addresses, row.assetId))
  }

  function Present(text: string): Option<string> { if text == "" then None else Some(text) }

  function AssetValues(e: AssetEntry, department: Option<nat>, location: Option<nat>): Asset {
    Asset(e.tag, Present(e.hostname), Present(e.serial), department, location, e.employee, SOURCE, Some(e.id),
          e.columns, e.addresses)
  }

  datatype Stock = Stock(departments: Names, locations: Names, assets: seq<Asset>, bySource: map<(string, int), nat>,
                         byTag: map<string, nat>, byHostname: map<string, nat>, bySerial: map<string, nat>,
                         sourceIds: map<int, nat>, created: nat, updated: nat)

  /** The dictionaries only point at assets that exist. */
  ghost predicate StockOk(st: Stock) {
    && (forall k | k in st.bySource :: st.bySource[k] < |st.assets|)
    && (forall k | k in st.byTag :: st.byTag[k] < |st.assets|)
    && (forall k | k in st.byHostname :: st.byHostname[k] < |st.assets|)
    && (forall k | k in st.bySerial :: st.bySerial[k] < |st.assets|)
  }

  /** The dictionary with a text that may be missing. */
  function WithText(index: map<string, nat>, text: string, id: nat): map<string, nat> {
    if text == "" then index else index[Lower(text) := id]
  }

  /** The id of the asset an entry is stored in: found by source id, tag, hostname or
      serial number, in this order, or new. */
  function AssetId(st: Stock, e: AssetEntry): (r: nat)
    requires StockOk(st)
    ensures r <= |st.assets|
  {
    if (SOURCE, e.id) in st.bySource then st.bySource[(SOURCE, e.id)]
    else if Lower(e.tag) in st.byTag then st.byTag[Lower(e.tag)]
    else if e.hostname != "" && Lower(e.hostname) in st.byHostname then st.byHostname[Lower(e.hostname)]
    else if e.serial != "" && Lower(e.serial) in st.bySerial then st.bySerial[Lower(e.serial)]
    else |st.assets|
  }

  function AssetStep(st: Stock, e: AssetEntry): (r: Stock)
    requires StockOk(st)
    ensures StockOk(r)
  {
    var id := AssetId(st, e);
    var values := AssetValues(e, NameId(st.departments, e.department), NameId(st.locations, e.location));
    var isNew := id == |st.assets|;
    Stock(WithName(st.departments, e.department), WithName(st.locations, e.location),
          if isNew then st.assets + [values] else st.assets[id := values],
          st.bySource[(SOURCE, e.id) := id], st.byTag[Lower(e.tag) := id], WithText(st.byHostname, e.hostname, id),
          WithText(st.bySerial, e.serial, id), st.sourceIds[e.id := id],
          st.created + (if isNew then 1 else 0), st.updated + (if isNew then 0 else 1))
  }

  function ImportAssets(st: Stock, entries: seq<AssetEntry>): (r: Stock)
    requires StockOk(st)
    ensures StockOk(r)
  {
    if entries == [] then st
    else AssetStep(ImportAssets(st, entries[..|entries| - 1]), entries[|entries| - 1])
  }

  /** One row's part in `AssetsFoundSoFar`, on any inventory: every dictionary finds the
      row's asset under its new keys, and the asset holds what the row says. */
  lemma AssetFoundUnderNewKeys(st: Stock, e: AssetEntry)
    requires StockOk(st)
    ensures var r, id := AssetStep(st, e), AssetId(st, e);
      && id < |r.assets|
      && r.assets[id] == AssetValues(e, NameId(st.departments, e.department), NameId(st.locations, e.location))
      && r.bySource[(SOURCE, e.id)] == id && r.byTag[Lower(e.tag)] == id
      && (e.hostname != "" ==> r.byHostname[Lower(e.hostname)] == id)
      && (e.serial != "" ==> r.bySerial[Lower(e.serial)] == id)
      && (forall k | 0 <= k < |st.assets| && k != id :: r.assets[k] == st.assets[k])
  {
  }

  /** After each employee row, the number and the email dictionary both find its
      record exactly when it was created, or was found by its number and is already
      the one indexed under its email: an update adds no keys. */
  lemma EmployeeFoundUnderNewKeys(p: People, e: EmployeeEntry)
    requires PeopleOk(p)
    ensures var r, id := EmployeeStep(p, e), EmployeeId(p, e);
      (Lower(e.number) in r.byNumber && r.byNumber[Lower(e.number)] == id
       && Lower(e.email) in r.byEmail && r.byEmail[Lower(e.email)] == id) <==>
        || FindEmployee(p, e).None?
        || (Lower(e.number) in p.byNumber && Lower(e.email) in p.byEmail
            && p.byEmail[Lower(e.email)] == p.byNumber[Lower(e.number)])
  {
    hide Lower, Strip, UserOf, NameId, WithName;
  }

  // ---------------------------------------------------------------- assets, once and again

  function SourceIndex(rows: seq<Asset>): map<(string, int), nat> {
    if rows == [] then map[]
    else
      var before, last := SourceIndex(rows[..|rows| - 1]), rows[|rows| - 1];
      if last.sourceId.Some? then before[(last.source, last.sourceId.value) := |rows| - 1] else before
  }

  function TagIndex(rows: seq<Asset>): map<string, nat> {
    if rows == [] then map[] else TagIndex(rows[..|rows| - 1])[Lower(rows[|rows| - 1].tag) := |rows| - 1]
  }

  function TextOf(text: Option<string>): string { if text.Some? then text.value else "" }

  function HostnameIndex(rows: seq<Asset>): map<string, nat> {
    if rows == [] then map[]
    else WithText(HostnameIndex(rows[..|rows| - 1]), TextOf(rows[|rows| - 1].hostname), |rows| - 1)
  }

  function SerialIndex(rows: seq<Asset>): map<string, nat> {
    if rows == [] then map[]
    else WithText(SerialIndex(rows[..|rows| - 1]), TextOf(rows[|rows| - 1].serial), |rows| - 1)
  }

  ghost predicate StockMirrored(st: Stock) {
    && st.departments.index == NameIndex(st.departments.rows)
    && st.locations.index == NameIndex(st.locations.rows)
    && st.bySource == SourceIndex(st.assets) && st.byTag == TagIndex(st.assets)
    && st.byHostname == HostnameIndex(st.assets) && st.bySerial == SerialIndex(st.assets)
  }

  /** Asset `j` holds just what the entry says and is found by its source id. */
  ghost predicate AssetSettled(st: Stock, e: AssetEntry, j: nat) {
    && j < |st.assets| && (SOURCE, e.id) in st.bySource && st.bySource[(SOURCE, e.id)] == j
    && Known(st.departments, e.department) && Known(st.locations, e.location)
    && st.assets[j] == AssetValues(e, NameId(st.departments, e.department), NameId(st.locations, e.location))
  }

  /** The tables and the source dictionary of two stocks agree. */
  ghost predicate SameStock(a: Stock, b: Stock) {
    a.departments == b.departments && a.locations == b.locations && a.assets == b.assets && a.bySource == b.bySource
  }

  lemma SettledAssetStays(st: Stock, e: AssetEntry, j: nat)
    requires StockOk(st) && AssetSettled(st, e, j)
    ensures var r := AssetStep(st, e);
      SameStock(r, st) && r.created == st.created && r.updated == st.updated + 1
      && r.sourceIds == st.sourceIds[e.id := j]
  {
    hide Lower;
    assert st.assets[j := st.assets[j]] == st.assets;
    assert st.bySource[(SOURCE, e.id) := j] == st.bySource;
  }

  ghost predicate AssetFresh(st: Stock, e: AssetEntry) {
    && (SOURCE, e.id) !in st.bySource && Lower(e.tag) !in st.byTag
    && (e.hostname == "" || Lower(e.hostname) !in st.byHostname)
    && (e.serial == "" || Lower(e.serial) !in st.bySerial)
  }

  ghost predicate StockExtends(a: Stock, b: Stock) {
    && a.assets <= b.assets
    && (forall k | k in a.departments.index ::
          k in b.departments.index && b.departments.index[k] == a.departments.index[k])
    && (forall k | k in a.locations.index :: k in b.locations.index && b.locations.index[k] == a.locations.index[k])
    && (forall k | k in a.bySource :: k in b.bySource && b.bySource[k] == a.bySource[k])
  }

  lemma SettledAssetKept(a: Stock, b: Stock, e: AssetEntry, j: nat)
    requires AssetSettled(a, e, j) && StockExtends(a, b)
    ensures AssetSettled(b, e, j)
  {
    hide Lower;
  }

  lemma AssetIndexesGrow(rows: seq<Asset>, a: Asset, id: int)
    requires a.sourceId == Some(id)
    ensures SourceIndex(rows + [a]) == SourceIndex(rows)[(a.source, id) := |rows|]
    ensures TagIndex(rows + [a]) == TagIndex(rows)[Lower(a.tag) := |rows|]
    ensures HostnameIndex(rows + [a]) == WithText(HostnameIndex(rows), TextOf(a.hostname), |rows|)
    ensures SerialIndex(rows + [a]) == WithText(SerialIndex(rows), TextOf(a.serial), |rows|)
  {
    hide Lower, WithText;
    assert (rows + [a])[..|rows|] == rows;
  }

  /** A fresh entry creates one asset, is settled, and disturbs nothing before it. */
  lemma FreshAssetStep(st: Stock, e: AssetEntry)
    requires StockOk(st) && StockMirrored(st) && AssetFresh(st, e)
    ensures var r := AssetStep(st, e);
      && StockMirrored(r) && AssetSettled(r, e, |st.assets|) && StockExtends(st, r)
      && r.assets ==
           st.assets + [AssetValues(e, NameId(st.departments, e.department), NameId(st.locations, e.location))]
      && r.created == st.created + 1 && r.updated == st.updated && r.sourceIds == st.sourceIds[e.id := |st.assets|]
  {
    hide Lower, NameIndex, SourceIndex, TagIndex, HostnameIndex, SerialIndex, WithText, WithName, NameId, Known;
    NewName(st.departments, e.department);
    NewName(st.locations, e.location);
    var values := AssetValues(e, NameId(st.departments, e.department), NameId(st.locations, e.location));
    AssetIndexesGrow(st.assets, values, e.id);
  }

  /** Entries with distinct ids and distinct case-folded tags, hostnames and serial
      numbers. */
  ghost predicate DistinctAssets(entries: seq<AssetEntry>) {
    forall i, j | 0 <= i < j < |entries| :: Apart(entries[i], entries[j])
  }

  ghost predicate Apart(a: AssetEntry, b: AssetEntry) {
    && a.id != b.id && Lower(a.tag) != Lower(b.tag)
    && (a.hostname != "" ==> Lower(a.hostname) != Lower(b.hostname))
    && (a.serial != "" ==> Lower(a.serial) != Lower(b.serial))
  }

  ghost predicate Keeps(a: Asset, e: AssetEntry) {
    a.source == SOURCE && a.sourceId == Some(e.id) && a.tag == e.tag
    && a.hostname == Present(e.hostname) && a.serial == Present(e.serial)
  }

  /** An entry apart from all stored ones is not found by any dictionary. */
  lemma {:induction false} NotIndexed(rows: seq<Asset>, entries: seq<AssetEntry>, e: AssetEntry)
    requires |rows| <= |entries|
    requires forall j | 0 <= j < |rows| :: Keeps(rows[j], entries[j]) && Apart(entries[j], e)
    ensures (SOURCE, e.id) !in SourceIndex(rows) && Lower(e.tag) !in TagIndex(rows)
    ensures e.hostname != "" ==> Lower(e.hostname) !in HostnameIndex(rows)
    ensures e.serial != "" ==> Lower(e.serial) !in SerialIndex(rows)
  {
    hide Lower;
    if rows != [] {
      NotIndexed(rows[..|rows| - 1], entries, e);
      assert Keeps(rows[|rows| - 1], entries[|rows| - 1]) && Apart(entries[|rows| - 1], e);
    }
  }

  ghost function AssetIds(entries: seq<AssetEntry>): map<int, nat> {
    if entries == [] then map[] else AssetIds(entries[..|entries| - 1])[entries[|entries| - 1].id := |entries| - 1]
  }

  /** The first import into an empty asset table creates one settled asset for every
      entry. */
  lemma {:induction false} FirstAssetImport(st: Stock, entries: seq<AssetEntry>)
    requires StockOk(st) && StockMirrored(st) && st.assets == [] && DistinctAssets(entries)
    requires st.created == 0 && st.updated == 0 && st.sourceIds == map[]
    ensures var q := ImportAssets(st, entries);
      && StockMirrored(q) && StockExtends(st, q) && |q.assets| == |entries|
      && (forall j | 0 <= j < |entries| :: AssetSettled(q, entries[j], j))
      && q.created == |entries| && q.updated == 0 && q.sourceIds == AssetIds(entries)
    decreases |entries|
  {
    hide Lower, AssetSettled, AssetStep, StockMirrored, Apart;
    if entries != [] {
      var before, e := entries[..|entries| - 1], entries[|entries| - 1];
      FirstAssetImport(st, before);
      var q := ImportAssets(st, before);
      assert forall j | 0 <= j < |before| :: entries[j] == before[j];
      LastAssetIsFresh(q, entries);
      FreshAssetStep(q, e);
      forall j | 0 <= j < |before| ensures AssetSettled(AssetStep(q, e), entries[j], j) {
        SettledAssetKept(q, AssetStep(q, e), before[j], j);
      }
    }
  }

  lemma LastAssetIsFresh(q: Stock, entries: seq<AssetEntry>)
    requires entries != [] && DistinctAssets(entries) && StockMirrored(q) && |q.assets| == |entries| - 1
    requires forall j | 0 <= j < |entries| - 1 :: AssetSettled(q, entries[j], j)
    ensures AssetFresh(q, entries[|entries| - 1])
  {
    hide Lower, NameIndex, Known, NameId, SourceIndex, TagIndex, HostnameIndex, SerialIndex, Apart;
    var e := entries[|entries| - 1];
    forall j | 0 <= j < |q.assets| ensures Keeps(q.assets[j], entries[j]) && Apart(entries[j], e) {
      assert AssetSettled(q, entries[j], j);
    }
    NotIndexed(q.assets, entries, e);
  }

  /** All four dictionaries find asset `j` for the entry, by the texts it has. */
  ghost predicate AssetFound(st: Stock, e: AssetEntry, j: nat) {
    && (SOURCE, e.id) in st.bySource && st.bySource[(SOURCE, e.id)] == j
    && Lower(e.tag) in st.byTag && st.byTag[Lower(e.tag)] == j
    && (e.hostname != "" ==> Lower(e.hostname) in st.byHostname && st.byHostname[Lower(e.hostname)] == j)
    && (e.serial != "" ==> Lower(e.serial) in st.bySerial && st.bySerial[Lower(e.serial)] == j)
  }

  lemma {:induction false} AssetIndexesFind(rows: seq<Asset>, entries: seq<AssetEntry>, j: nat)
    requires j < |rows| <= |entries| && DistinctAssets(entries)
    requires forall i | 0 <= i < |rows| :: Keeps(rows[i], entries[i])
    ensures var e := entries[j];
      && (SOURCE, e.id) in SourceIndex(rows) && SourceIndex(rows)[(SOURCE, e.id)] == j
      && Lower(e.tag) in TagIndex(rows) && TagIndex(rows)[Lower(e.tag)] == j
      && (e.hostname != "" ==> Lower(e.hostname) in HostnameIndex(rows) && HostnameIndex(rows)[Lower(e.hostname)] == j)
      && (e.serial != "" ==> Lower(e.serial) in SerialIndex(rows) && SerialIndex(rows)[Lower(e.serial)] == j)
  {
    hide Lower;
    var last := |rows| - 1;
    assert Keeps(rows[last], entries[last]);
    if j < last {
      AssetIndexesFind(rows[..last], entries, j);
      assert Apart(entries[j], entries[last]);
    }
  }

  /** At every point of a first import of distinct rows, all four dictionaries find the
      asset of every row so far: no later row takes a key over. */
  lemma AssetsFoundSoFar(st: Stock, entries: seq<AssetEntry>, k: nat, j: nat)
    requires StockOk(st) && StockMirrored(st) && st.assets == [] && DistinctAssets(entries)
    requires st.created == 0 && st.updated == 0 && st.sourceIds == map[]
    requires j < k <= |entries|
    ensures AssetFound(ImportAssets(st, entries[..k]), entries[j], j)
  {
    hide Lower, SourceIndex, TagIndex, HostnameIndex, SerialIndex, NameIndex, Known, NameId, Apart;
    var before := entries[..k];
    FirstAssetImport(st, before);
    var q := ImportAssets(st, before);
    forall i | 0 <= i < k ensures Keeps(q.assets[i], before[i]) {
      assert AssetSettled(q, before[i], i);
    }
    AssetIndexesFind(q.assets, before, j);
  }

  /** Importing settled entries again leaves every table as it is. */
  lemma {:induction false} SettledAssetsStay(st: Stock, entries: seq<AssetEntry>)
    requires StockOk(st) && st.created == 0 && st.updated == 0 && st.sourceIds == map[]
    requires forall j | 0 <= j < |entries| :: AssetSettled(st, entries[j], j)
    ensures var q := ImportAssets(st, entries);
      SameStock(q, st) && q.created == 0 && q.updated == |entries| && q.sourceIds == AssetIds(entries)
    decreases |entries|
  {
    hide AssetStep, StockOk, Lower;
    if entries != [] {
      var before, e := entries[..|entries| - 1], entries[|entries| - 1];
      SettledAssetsStay(st, before);
      assert AssetSettled(st, e, |before|);
      SettledAssetStays(ImportAssets(st, before), e, |before|);
    }
  }

  // ---------------------------------------------------------------- history

  function ImportedEvents(history: seq<History>): set<Event> {
    set h | h in history :: h.event
  }

  function LookUp(ids: map<int, nat>, id: int): Option<nat> {
    if id in ids then Some(ids[id]) else None
  }

  /** The assignments that are not in the history yet. */
  function NewAssignments(rows: seq<AssignmentRow>, imported: set<Event>, assets: map<int, nat>,
                          employees: map<int, nat>): seq<History> {
    if rows == [] then []
    else
      var row := rows[|rows| - 1];
      NewAssignments(rows[..|rows| - 1], imported, assets, employees) +
      if AssignmentEvent(row.id) in imported || row.assetId !in assets then []
      else [History(assets[row.assetId], AssignmentEvent(row.id), LookUp(employees, row.employeeId), [row.notes])]
  }

  /** The status changes that are not in the history yet. */
  function NewStatuses(rows: seq<StatusRow>, imported: set<Event>, assets: map<int, nat>): seq<History> {
    if rows == [] then []
    else
      var row := rows[|rows| - 1];
      NewStatuses(rows[..|rows| - 1], imported, assets) +
      if StatusEvent(row.id) in imported || row.assetId !in assets then []
      else [History(assets[row.assetId], StatusEvent(row.id), None, [row.before, row.after])]
  }

  lemma {:induction false} AssignmentsImported(rows: seq<AssignmentRow>, imported: set<Event>, assets: map<int, nat>,
                                               employees: map<int, nat>, k: nat)
    requires k < |rows| && rows[k].assetId in assets
    ensures AssignmentEvent(rows[k].id) in imported + ImportedEvents(NewAssignments(rows, imported, assets, employees))
  {
    var before, all := NewAssignments(rows[..|rows| - 1], imported, assets, employees),
                       NewAssignments(rows, imported, assets, employees);
    if k < |rows| - 1 {
      AssignmentsImported(rows[..|rows| - 1], imported, assets, employees, k);
      assert forall h | h in before :: h in all;
    } else if AssignmentEvent(rows[k].id) !in imported {
      assert all[|before|] in all;
    }
  }

  lemma {:induction false} StatusesImported(rows: seq<StatusRow>, imported: set<Event>, assets: map<int, nat>, k: nat)
    requires k < |rows| && rows[k].assetId in assets
    ensures StatusEvent(rows[k].id) in imported + ImportedEvents(NewStatuses(rows, imported, assets))
  {
    var before, all := NewStatuses(rows[..|rows| - 1], imported, assets), NewStatuses(rows, imported, assets);
    if k < |rows| - 1 {
      StatusesImported(rows[..|rows| - 1], imported, assets, k);
      assert forall h | h in before :: h in all;
    } else if StatusEvent(rows[k].id) !in imported {
      assert all[|before|] in all;
    }
  }

  lemma {:induction false} NoNewAssignments(rows: seq<AssignmentRow>, imported: set<Event>, assets: map<int, nat>,
                                            employees: map<int, nat>)
    requires forall k | 0 <= k < |rows| && rows[k].assetId in assets :: AssignmentEvent(rows[k].id) in imported
    ensures NewAssignments(rows, imported, assets, employees) == []
  {
    if rows != [] {
      NoNewAssignments(rows[..|rows| - 1], imported, assets, employees);
    }
  }

  lemma {:induction false} NoNewStatuses(rows: seq<StatusRow>, imported: set<Event>, assets: map<int, nat>)
    requires forall k | 0 <= k < |rows| && rows[k].assetId in assets :: StatusEvent(rows[k].id) in imported
    ensures NewStatuses(rows, imported, assets) == []
  {
    if rows != [] {
      NoNewStatuses(rows[..|rows| - 1], imported, assets);
    }
  }

  /** The history after an import. */
  function WithHistory(history: seq<History>, source: Source, assets: map<int, nat>, employees: map<int, nat>)
    : seq<History>
  {
    var imported := ImportedEvents(history);
    history + NewAssignments(source.assignments, imported, assets, employees)
      + NewStatuses(source.statuses, imported, assets)
  }

  /** The same source adds to the history once, whatever was in it before. */
  lemma HistoryOnce(history: seq<History>, source: Source, assets: map<int, nat>, employees: map<int, nat>)
    ensures var once := WithHistory(history, source, assets, employees);
      WithHistory(once, source, assets, employees) == once
  {
    var imported := ImportedEvents(history);
    var assignments := NewAssignments(source.assignments, imported, assets, employees);
    var statuses := NewStatuses(source.statuses, imported, assets);
    var once := history + assignments + statuses;
    assert ImportedEvents(once) == imported + ImportedEvents(assignments) + ImportedEvents(statuses) by {
      EventsConcat(history + assignments, statuses);
      EventsConcat(history, assignments);
    }
    forall k | 0 <= k < |source.assignments| && source.assignments[k].assetId in assets
      ensures AssignmentEvent(source.assignments[k].id) in ImportedEvents(once)
    {
      AssignmentsImported(source.assignments, imported, assets, employees, k);
    }
    forall k | 0 <= k < |source.statuses| && source.statuses[k].assetId in assets
      ensures StatusEvent(source.statuses[k].id) in ImportedEvents(once)
    {
      StatusesImported(source.statuses, imported, assets, k);
    }
    NoNewAssignments(source.assignments, ImportedEvents(once), assets, employees);
    NoNewStatuses(source.statuses, ImportedEvents(once), assets);
  }

  lemma EventsConcat(a: seq<History>, b: seq<History>)
    ensures ImportedEvents(a + b) == ImportedEvents(a) + ImportedEvents(b)
  {
    assert forall h :: h in a + b <==> h in a || h in b;
  }

  // ---------------------------------------------------------------- the import

  function PeopleFrom(t: Tables): People {
    People(Names(t.departments, NameIndex(t.departments)), Names(t.locations, NameIndex(t.locations)), t.employees,
           t.users, NumberIndex(t.employees), EmailIndex(t.employees), NameIndex(t.users), map[], 0, 0)
  }

  lemma {:induction false} EmployeeIndexesPoint(rows: seq<Employee>)
    ensures forall k | k in NumberIndex(rows) :: NumberIndex(rows)[k] < |rows|
    ensures forall k | k in EmailIndex(rows) :: EmailIndex(rows)[k] < |rows|
  {
    hide Lower;
    if rows != [] {
      EmployeeIndexesPoint(rows[..|rows| - 1]);
    }
  }

  lemma {:induction false} AssetIndexesPoint(rows: seq<Asset>)
    ensures forall k | k in SourceIndex(rows) :: SourceIndex(rows)[k] < |rows|
    ensures forall k | k in TagIndex(rows) :: TagIndex(rows)[k] < |rows|
    ensures forall k | k in HostnameIndex(rows) :: HostnameIndex(rows)[k] < |rows|
    ensures forall k | k in SerialIndex(rows) :: SerialIndex(rows)[k] < |rows|
  {
    hide Lower;
    if rows != [] {
      AssetIndexesPoint(rows[..|rows| - 1]);
    }
  }

  function StockFrom(assets: seq<Asset>, departments: Names, locations: Names): Stock {
    Stock(departments, locations, assets, SourceIndex(assets), TagIndex(assets), HostnameIndex(assets),
          SerialIndex(assets), map[], 0, 0)
  }

  function Entries(rows: seq<EmployeeRow>): (r: seq<EmployeeEntry>)
    ensures |r| == |rows|
  {
    seq(|rows|, i requires 0 <= i < |rows| => EntryOf(rows[i]))
  }

  function AssetEntries(source: Source, employeeIds: map<int, nat>): (r: seq<AssetEntry>)
    ensures |r| == |source.assets|
  {
    seq(|source.assets|, i requires 0 <= i < |source.assets| => AssetEntryOf(source.assets[i], source, employeeIds))
  }

  /** The tables after an import, and what it reports. */
  function Import(t: Tables, source: Source): (Tables, Counts) {
    EmployeeIndexesPoint(t.employees);
    AssetIndexesPoint(t.assets);
    var p := ImportEmployees(PeopleFrom(t), Entries(source.employees));
    var st := ImportAssets(StockFrom(t.assets, p.departments, p.locations), AssetEntries(source, p.sourceIds));
    var history := WithHistory(t.history, source, st.sourceIds, p.sourceIds);
    (Tables(st.departments.rows, st.locations.rows, p.employees, p.users, st.assets, history),
     Counts(p.created, p.updated, st.created, st.updated, |history| - |t.history|))
  }

  /** Emails that are filled in or cleaned need no further cleaning. */
  lemma EntryEmailClean(row: EmployeeRow)
    ensures CleanEmail(EntryOf(row))
  {
    var fallback := "assetpilot-" + IdText(row.employeeId) + INVALID;
    var text := OrElse(row.email, fallback);
    hide SplitName, Strip, IdText;
    StripIsTrim(row.email);
    assert Trim(text);
    assert Trim(Lower(text));
    TrimStays(Lower(text));
    LowerTwice(text);
  }

  /** A source whose case-folded keys are distinct. */
  ghost predicate DistinctSource(source: Source) {
    DistinctEmployees(Entries(source.employees)) && DistinctAssets(AssetEntries(source, map[]))
  }

  /** Holders and addresses do not matter for the keys. */
  lemma DistinctWithHolders(source: Source, employeeIds: map<int, nat>)
    requires DistinctAssets(AssetEntries(source, map[]))
    ensures DistinctAssets(AssetEntries(source, employeeIds))
  {
    hide Lower, Strip, OrElse, IdText, ActiveAssignment, AddressesOf;
    var plain, held := AssetEntries(source, map[]), AssetEntries(source, employeeIds);
    forall i, j | 0 <= i < j < |held| ensures Apart(held[i], held[j]) {
      assert Apart(plain[i], plain[j]);
    }
  }

  /** The first employee import, read back by the second one with the names the asset
      import added: every entry is still settled. */
  lemma EmployeesSettledAgain(p: People, st: Stock, entries: seq<EmployeeEntry>, again: People)
    requires PeopleOk(p) && PeopleMirrored(p) && StockMirrored(st)
    requires forall j | 0 <= j < |entries| :: EmployeeSettled(p, entries[j], j)
    requires forall k | k in p.departments.index ::
      k in st.departments.index && st.departments.index[k] == p.departments.index[k]
    requires forall k | k in p.locations.index ::
      k in st.locations.index && st.locations.index[k] == p.locations.index[k]
    requires again == PeopleFrom(Tables(st.departments.rows, st.locations.rows, p.employees, p.users, st.assets, []))
    ensures PeopleOk(again) && again.departments == st.departments && again.locations == st.locations
    ensures forall j | 0 <= j < |entries| :: EmployeeSettled(again, entries[j], j)
  {
    hide Lower, NameIndex, NumberIndex, EmailIndex, EmployeeSettled, SourceIndex, TagIndex, HostnameIndex, SerialIndex;
    assert PeopleExtend(p, again);
    forall j | 0 <= j < |entries| ensures EmployeeSettled(again, entries[j], j) {
      SettledEmployeeKept(p, again, entries[j], j);
    }
  }

  /** The people and the stock hold a settled record for every row, under mirrored
      dictionaries. */
  ghost predicate FirstImported(source: Source, p: People, st: Stock) {
    && PeopleOk(p) && PeopleMirrored(p) && StockOk(st) && StockMirrored(st)
    && |p.employees| == |source.employees| && |st.assets| == |source.assets|
    && (forall j | 0 <= j < |source.employees| :: EmployeeSettled(p, Entries(source.employees)[j], j))
    && (forall j | 0 <= j < |source.assets| :: AssetSettled(st, AssetEntries(source, p.sourceIds)[j], j))
    && p.sourceIds == EntryIds(Entries(source.employees))
    && st.sourceIds == AssetIds(AssetEntries(source, p.sourceIds))
    && (forall k | k in p.departments.index ::
          k in st.departments.index && st.departments.index[k] == p.departments.index[k])
    && (forall k | k in p.locations.index ::
          k in st.locations.index && st.locations.index[k] == p.locations.index[k])
  }

  lemma FirstPeople(t: Tables, source: Source)
    requires t.employees == [] && DistinctEmployees(Entries(source.employees))
    ensures PeopleOk(PeopleFrom(t))
    ensures var p := ImportEmployees(PeopleFrom(t), Entries(source.employees));
      && PeopleMirrored(p) && |p.employees| == |source.employees|
      && (forall j | 0 <= j < |source.employees| :: EmployeeSettled(p, Entries(source.employees)[j], j))
      && p.created == |source.employees| && p.updated == 0 && p.sourceIds == EntryIds(Entries(source.employees))
  {
    hide Lower, EntryOf, NameIndex, NumberIndex, EmailIndex, EmployeeSettled, DistinctEmployees, CleanEmail, EntryIds;
    hide ImportEmployees;
    var entries := Entries(source.employees);
    forall i | 0 <= i < |entries| ensures CleanEmail(entries[i]) { EntryEmailClean(source.employees[i]); }
    PeopleFromOk(t);
    FirstEmployeeImport(PeopleFrom(t), entries);
  }

  lemma FirstStock(source: Source, employeeIds: map<int, nat>, departments: Names, locations: Names)
    requires DistinctAssets(AssetEntries(source, map[]))
    requires departments.index == NameIndex(departments.rows) && locations.index == NameIndex(locations.rows)
    ensures StockOk(StockFrom([], departments, locations))
    ensures var start := StockFrom([], departments, locations);
      var st := ImportAssets(start, AssetEntries(source, employeeIds));
      && StockMirrored(st) && StockExtends(start, st) && |st.assets| == |source.assets|
      && (forall j | 0 <= j < |source.assets| :: AssetSettled(st, AssetEntries(source, employeeIds)[j], j))
      && st.created == |source.assets| && st.updated == 0
      && st.sourceIds == AssetIds(AssetEntries(source, employeeIds))
  {
    hide Lower, AssetEntryOf, NameIndex, AssetSettled, DistinctAssets, AssetIds, ImportAssets, AssetEntries;
    hide StockExtends;
    DistinctWithHolders(source, employeeIds);
    FirstAssetImport(StockFrom([], departments, locations), AssetEntries(source, employeeIds));
  }

  /** What a first import into empty employee and asset tables leaves behind. */
  lemma FirstImport(t: Tables, source: Source) returns (p: People, st: Stock)
    requires t.employees == [] && t.assets == [] && DistinctSource(source)
    ensures FirstImported(source, p, st)
    ensures var history := WithHistory(t.history, source, st.sourceIds, p.sourceIds);
      Import(t, source) ==
        (Tables(st.departments.rows, st.locations.rows, p.employees, p.users, st.assets, history),
         Counts(|source.employees|, 0, |source.assets|, 0, |history| - |t.history|))
  {
    hide Entries, AssetEntries, NameIndex, NumberIndex, EmailIndex, SourceIndex, TagIndex, HostnameIndex, SerialIndex;
    hide EmployeeSettled, AssetSettled, DistinctEmployees, DistinctAssets, WithHistory, EntryIds, AssetIds, StockOk;
    hide ImportEmployees, ImportAssets;
    FirstPeople(t, source);
    p := ImportEmployees(PeopleFrom(t), Entries(source.employees));
    FirstStock(source, p.sourceIds, p.departments, p.locations);
    st := ImportAssets(StockFrom(t.assets, p.departments, p.locations), AssetEntries(source, p.sourceIds));
  }

  /** Importing is idempotent: starting without employees and assets, a second import
      of the same source creates nothing and leaves every table as it is. */
  lemma ImportTwice(t: Tables, source: Source)
    requires t.employees == [] && t.assets == [] && DistinctSource(source)
    ensures var (once, first) := Import(t, source);
      && Import(once, source) == (once, Counts(0, |source.employees|, 0, |source.assets|, 0))
      && first.employeesCreated == |source.employees| && first.employeesUpdated == 0
      && first.assetsCreated == |source.assets| && first.assetsUpdated == 0
  {
    hide Import, WithHistory, FirstImported;
    var p, st := FirstImport(t, source);
    HistoryOnce(t.history, source, st.sourceIds, p.sourceIds);
    SecondImport(p, st, source, Import(t, source).0);
  }

  lemma SettledInSameStock(a: Stock, b: Stock, e: AssetEntry, j: nat)
    requires AssetSettled(a, e, j) && SameStock(a, b)
    ensures AssetSettled(b, e, j)
  {
  }

  /** An import of a source that is settled in the tables. */
  lemma SecondImport(p: People, st: Stock, source: Source, once: Tables)
    requires FirstImported(source, p, st)
    requires once == Tables(st.departments.rows, st.locations.rows, p.employees, p.users, st.assets, once.history)
    requires WithHistory(once.history, source, st.sourceIds, p.sourceIds) == once.history
    ensures Import(once, source) == (once, Counts(0, |source.employees|, 0, |source.assets|, 0))
  {
    hide Lower, EntryOf, AssetEntryOf, NameIndex, NumberIndex, EmailIndex, SourceIndex, TagIndex, HostnameIndex;
    hide SerialIndex, EmployeeSettled, AssetSettled, WithHistory, PeopleMirrored, ImportEmployees, ImportAssets;
    hide EntryIds, AssetIds;
    var again := PeopleFrom(once);
    EmployeesSettledAgain(p, st, Entries(source.employees), again);
    SettledEmployeesStay(again, Entries(source.employees));
    var p2 := ImportEmployees(again, Entries(source.employees));
    AssetIndexesPoint(once.assets);
    var start := StockFrom(once.assets, p2.departments, p2.locations);
    assert SameStock(start, st);
    forall j | 0 <= j < |source.assets| ensures AssetSettled(start, AssetEntries(source, p.sourceIds)[j], j) {
      SettledInSameStock(st, start, AssetEntries(source, p.sourceIds)[j], j);
    }
    SettledAssetsStay(start, AssetEntries(source, p2.sourceIds));
  }

  /** The inventory tables, and the import that changes them. */
  class Inventory {
    var departments: seq<string>
    var locations: seq<string>
    var employees: seq<Employee>
    var users: seq<string>
    var assets: seq<Asset>
    var history: seq<History>

    constructor ()
      ensures State() == Tables([], [], [], [], [], [])
    {
      departments, locations, employees, users, assets, history := [], [], [], [], [], [];
    }

    function State(): Tables
      reads this
    {
      Tables(departments, locations, employees, users, assets, history)
    }

    /** The department of a name, created when it is new. */
    method DepartmentId(index: map<string, nat>, name: string) returns (index': map<string, nat>, id: Option<nat>)
      modifies this`departments
      ensures id == NameId(Names(old(departments), index), name)
      ensures Names(departments, index') == WithName(Names(old(departments), index), name)
    {
      index', id := index, None;
      if name != "" {
        if Lower(name) !in index' {
          index' := index'[Lower(name) := |departments|];
          departments := departments + [name];
        }
        id := Some(index'[Lower(name)]);
      }
    }

    method LocationId(index: map<string, nat>, name: string) returns (index': map<string, nat>, id: Option<nat>)
      modifies this`locations
      ensures id == NameId(Names(old(locations), index), name)
      ensures Names(locations, index') == WithName(Names(old(locations), index), name)
    {
      index', id := index, None;
      if name != "" {
        if Lower(name) !in index' {
          index' := index'[Lower(name) := |locations|];
          locations := locations + [name];
        }
        id := Some(index'[Lower(name)]);
      }
    }

    /** The login of an employee, created when the employee may have one. */
    method EnsureEmployeeUser(e: Employee) returns (user: Option<nat>)
      modifies this`users
      ensures (users, user) == EnsureUser(old(users), e)
    {
      user := None;
      if Employable(e) {
        var email := Lower(Strip(e.email));
        user := FindUser(users, email);
        if user.None? {
          user := Some(|users|);
          users := users + [email];
        }
      }
    }

    /** Creates or updates the record of an entry; `before` is the state so far. */
    method StoreEmployee(ghost before: People, e: EmployeeEntry, departmentIndex: map<string, nat>,
                         locationIndex: map<string, nat>, byNumber: map<string, nat>, byEmail: map<string, nat>)
      returns (departmentIndex': map<string, nat>, locationIndex': map<string, nat>, byNumber': map<string, nat>,
               byEmail': map<string, nat>, id: nat, isNew: bool)
      requires PeopleOk(before) && before.departments == Names(departments, departmentIndex)
      requires before.locations == Names(locations, locationIndex) && before.employees == employees
      requires before.byNumber == byNumber && before.byEmail == byEmail
      modifies this`departments, this`locations, this`employees
      ensures id == EmployeeId(before, e) && id < |employees|
      ensures Stored(before, e) == before.(departments := Names(departments, departmentIndex'),
        locations := Names(locations, locationIndex'), employees := employees,
        byNumber := byNumber', byEmail := byEmail',
        created := before.created + (if isNew then 1 else 0), updated := before.updated + (if isNew then 0 else 1))
    {
      hide Lower, NameId, WithName, Updated, EmployeeValues;
      byNumber', byEmail', isNew := byNumber, byEmail, false;
      var found: Option<nat> := None;
      if Lower(e.number) in byNumber {
        found := Some(byNumber[Lower(e.number)]);
      } else if Lower(e.email) in byEmail {
        found := Some(byEmail[Lower(e.email)]);
      }
      var department, location;
      departmentIndex', department := DepartmentId(departmentIndex, e.department);
      locationIndex', location := LocationId(locationIndex, e.location);
      var values := EmployeeValues(e, department, location);
      if found.None? {
        id, isNew := |employees|, true;
        employees := employees + [values];
        byNumber', byEmail' := byNumber[Lower(e.number) := id], byEmail[Lower(e.email) := id];
      } else {
        id := found.value;
        employees := employees[id := Updated(employees[id], values)];
      }
    }

    /** Links the record of an entry to its login. */
    method LinkUser(ghost before: People, e: EmployeeEntry, id: nat, userByEmail: map<string, nat>)
      returns (userByEmail': map<string, nat>)
      requires PeopleOk(before) && id < |employees|
      requires before.employees == employees && before.users == users && before.userByEmail == userByEmail
      modifies this`employees, this`users
      ensures Linked(before, e, id) == before.(employees := employees, users := users, userByEmail := userByEmail',
                                               sourceIds := before.sourceIds[e.id := id])
    {
      hide Lower, EnsureUser;
      userByEmail' := userByEmail;
      var user: Option<nat>;
      if Lower(e.email) in userByEmail {
        user := Some(userByEmail[Lower(e.email)]);
      } else {
        user := EnsureEmployeeUser(employees[id]);
      }
      if user.Some? {
        userByEmail' := userByEmail[Lower(e.email) := user.value];
        employees := employees[id := employees[id].(user := user)];
      }
    }

    method ImportEmployeeRows(rows: seq<EmployeeRow>, departmentIndex: map<string, nat>,
                              locationIndex: map<string, nat>)
      returns (departmentIndex': map<string, nat>, locationIndex': map<string, nat>, ids: map<int, nat>,
               created: nat, updated: nat)
      requires departmentIndex == NameIndex(departments) && locationIndex == NameIndex(locations)
      modifies this`departments, this`locations, this`employees, this`users
      ensures PeopleOk(PeopleFrom(old(State())))
      ensures var p := ImportEmployees(PeopleFrom(old(State())), Entries(rows));
        && p.departments == Names(departments, departmentIndex') && p.locations == Names(locations, locationIndex')
        && p.employees == employees && p.users == users && p.sourceIds == ids && p.created == created
        && p.updated == updated
    {
      hide Lower, EntryOf, NameIndex, NumberIndex, EmailIndex, Stored, Linked, EmployeeId, PeopleOk, ImportEmployees;
      PeopleFromOk(State());
      ghost var start := PeopleFrom(State());
      ImportNothing(start);
      var byNumber: map<string, nat>, byEmail: map<string, nat> := NumberIndex(employees), EmailIndex(employees);
      var userByEmail: map<string, nat> := NameIndex(users);
      departmentIndex', locationIndex', ids, created, updated := departmentIndex, locationIndex, map[], 0, 0;
      for i := 0 to |rows|
        invariant People(Names(departments, departmentIndex'), Names(locations, locationIndex'), employees, users,
                         byNumber, byEmail, userByEmail, ids, created, updated)
                  == ImportEmployees(start, Entries(rows)[..i])
      {
        ghost var before := ImportEmployees(start, Entries(rows)[..i]);
        var e := EntryOf(rows[i]);
        ImportOneMore(start, Entries(rows)[..i], e);
        assert Entries(rows)[..i + 1] == Entries(rows)[..i] + [e];
        var id, isNew;
        departmentIndex', locationIndex', byNumber, byEmail, id, isNew :=
          StoreEmployee(before, e, departmentIndex', locationIndex', byNumber, byEmail);
        if isNew {
          created := created + 1;
        } else {
          updated := updated + 1;
        }
        userByEmail := LinkUser(Stored(before, e), e, id, userByEmail);
        ids := ids[e.id := id];
      }
      assert Entries(rows)[..|rows|] == Entries(rows);
    }

    method ImportAssetRows(source: Source, employeeIds: map<int, nat>, departmentIndex: map<string, nat>,
                           locationIndex: map<string, nat>)
      returns (ids: map<int, nat>, created: nat, updated: nat)
      modifies this`departments, this`locations, this`assets
      ensures StockOk(StockFrom(old(assets), Names(old(departments), departmentIndex),
                                Names(old(locations), locationIndex)))
      ensures var start := StockFrom(old(assets), Names(old(departments), departmentIndex),
                                     Names(old(locations), locationIndex));
        var st := ImportAssets(start, AssetEntries(source, employeeIds));
        && st.departments.rows == departments && st.locations.rows == locations && st.assets == assets
        && st.sourceIds == ids && st.created == created && st.updated == updated
    {
      hide Lower, AssetEntryOf, SourceIndex, TagIndex, HostnameIndex, SerialIndex, AssetStep;
      AssetIndexesPoint(assets);
      var departmentIndex', locationIndex' := departmentIndex, locationIndex;
      ghost var start := StockFrom(assets, Names(departments, departmentIndex), Names(locations, locationIndex));
      var bySource: map<(string, int), nat>, byTag: map<string, nat> := SourceIndex(assets), TagIndex(assets);
      var byHostname: map<string, nat>, bySerial: map<string, nat> := HostnameIndex(assets), SerialIndex(assets);
      ids, created, updated := map[], 0, 0;
      ghost var entries := AssetEntries(source, employeeIds);
      for i := 0 to |source.assets|
        invariant Stock(Names(departments, departmentIndex'), Names(locations, locationIndex'), assets, bySource, byTag,
                        byHostname, bySerial, ids, created, updated) == ImportAssets(start, entries[..i])
      {
        ghost var before := ImportAssets(start, entries[..i]);
        var e := AssetEntryOf(source.assets[i], source, employeeIds);
        ImportOneMoreAsset(start, entries[..i], e);
        assert entries[..i + 1] == entries[..i] + [e];
        var id, isNew;
        departmentIndex', locationIndex', id, isNew :=
          StoreAsset(before, e, departmentIndex', locationIndex', bySource, byTag, byHostname, bySerial);
        if isNew {
          created := created + 1;
        } else {
          updated := updated + 1;
        }
        bySource, byTag := bySource[(SOURCE, e.id) := id], byTag[Lower(e.tag) := id];
        byHostname, bySerial := WithText(byHostname, e.hostname, id), WithText(bySerial, e.serial, id);
        ids := ids[e.id := id];
      }
      assert entries[..|source.assets|] == entries;
    }

    /** Creates or overwrites the asset of an entry. */
    method StoreAsset(ghost before: Stock, e: AssetEntry, departmentIndex: map<string, nat>,
                      locationIndex: map<string, nat>, bySource: map<(string, int), nat>, byTag: map<string, nat>,
                      byHostname: map<string, nat>, bySerial: map<string, nat>)
      returns (departmentIndex': map<string, nat>, locationIndex': map<string, nat>, id: nat, isNew: bool)
      requires StockOk(before) && before.departments == Names(departments, departmentIndex)
      requires before.locations == Names(locations, locationIndex) && before.assets == assets
      requires before.bySource == bySource && before.byTag == byTag
      requires before.byHostname == byHostname && before.bySerial == bySerial
      modifies this`departments, this`locations, this`assets
      ensures id == AssetId(before, e) && id < |assets|
      ensures AssetStep(before, e) ==
        Stock(Names(departments, departmentIndex'), Names(locations, locationIndex'), assets,
              bySource[(SOURCE, e.id) := id], byTag[Lower(e.tag) := id], WithText(byHostname, e.hostname, id),
              WithText(bySerial, e.serial, id), before.sourceIds[e.id := id],
              before.created + (if isNew then 1 else 0), before.updated + (if isNew then 0 else 1))
    {
      hide Lower, NameId, WithName, AssetValues, WithText;
      id, isNew := |assets|, false;
      if (SOURCE, e.id) in bySource {
        id := bySource[(SOURCE, e.id)];
      } else if Lower(e.tag) in byTag {
        id := byTag[Lower(e.tag)];
      } else if e.hostname != "" && Lower(e.hostname) in byHostname {
        id := byHostname[Lower(e.hostname)];
      } else if e.serial != "" && Lower(e.serial) in bySerial {
        id := bySerial[Lower(e.serial)];
      } else {
        isNew := true;
      }
      var department, location;
      departmentIndex', department := DepartmentId(departmentIndex, e.department);
      locationIndex', location := LocationId(locationIndex, e.location);
      var values := AssetValues(e, department, location);
      if isNew {
        assets := assets + [values];
      } else {
        assets := assets[id := values];
      }
    }

    method ImportAssignments(rows: seq<AssignmentRow>, imported: set<Event>, assetIds: map<int, nat>,
                             employeeIds: map<int, nat>)
      modifies this`history
      ensures history == old(history) + NewAssignments(rows, imported, assetIds, employeeIds)
    {
      for i := 0 to |rows|
        invariant history == old(history) + NewAssignments(rows[..i], imported, assetIds, employeeIds)
      {
        var row := rows[i];
        assert rows[..i + 1][..i] == rows[..i];
        if AssignmentEvent(row.id) !in imported && row.assetId in assetIds {
          history := history + [History(assetIds[row.assetId], AssignmentEvent(row.id),
                                        LookUp(employeeIds, row.employeeId), [row.notes])];
        }
      }
      assert rows[..|rows|] == rows;
    }

    method ImportStatuses(rows: seq<StatusRow>, imported: set<Event>, assetIds: map<int, nat>)
      modifies this`history
      ensures history == old(history) + NewStatuses(rows, imported, assetIds)
    {
      for i := 0 to |rows|
        invariant history == old(history) + NewStatuses(rows[..i], imported, assetIds)
      {
        var row := rows[i];
        assert rows[..i + 1][..i] == rows[..i];
        if StatusEvent(row.id) !in imported && row.assetId in assetIds {
          history := history + [History(assetIds[row.assetId], StatusEvent(row.id), None, [row.before, row.after])];
        }
      }
      assert rows[..|rows|] == rows;
    }

    method ImportHistory(source: Source, assetIds: map<int, nat>, employeeIds: map<int, nat>) returns (created: nat)
      modifies this`history
      ensures history == WithHistory(old(history), source, assetIds, employeeIds)
      ensures created == |history| - |old(history)|
    {
      var imported := ImportedEvents(history);
      var before := |history|;
      ImportAssignments(source.assignments, imported, assetIds, employeeIds);
      ImportStatuses(source.statuses, imported, assetIds);
      created := |history| - before;
    }

    /** Imports a source: employees, then assets, then history. */
    method ImportAssetPilot(source: Source) returns (counts: Counts)
      modifies this
      ensures (State(), counts) == Import(old(State()), source)
    {
      hide Lower, EntryOf, AssetEntryOf, ImportEmployees, ImportAssets, WithHistory, NameIndex, NumberIndex, EmailIndex;
      var departmentIndex, locationIndex, employeeIds, employeesCreated, employeesUpdated :=
        ImportEmployeeRows(source.employees, NameIndex(departments), NameIndex(locations));
      var assetIds, assetsCreated, assetsUpdated :=
        ImportAssetRows(source, employeeIds, departmentIndex, locationIndex);
      var historyCreated := ImportHistory(source, assetIds, employeeIds);
      counts := Counts(employeesCreated, employeesUpdated, assetsCreated, assetsUpdated, historyCreated);
    }
  }

  lemma ImportOneMoreAsset(start: Stock, entries: seq<AssetEntry>, e: AssetEntry)
    requires StockOk(start)
    ensures ImportAssets(start, entries + [e]) == AssetStep(ImportAssets(start, entries), e)
  {
    hide AssetStep;
    assert (entries + [e])[..|entries|] == entries;
  }

  lemma PeopleFromOk(t: Tables)
    ensures PeopleOk(PeopleFrom(t))
  {
    EmployeeIndexesPoint(t.employees);
  }

  /** Whenever a row has the email of a stored employee and a number nobody has, its
      record is not found by the new number afterwards. */
  lemma NewNumberNotFound(t: Tables, row: EmployeeRow)
    requires Lower(EntryOf(row).email) in EmailIndex(t.employees)
    requires Lower(EntryOf(row).number) !in NumberIndex(t.employees)
    ensures PeopleOk(PeopleFrom(t))
    ensures Lower(EntryOf(row).number) !in EmployeeStep(PeopleFrom(t), EntryOf(row)).byNumber
  {
    hide Lower, EntryOf, NumberIndex, EmailIndex, NameIndex, UserOf, NameId, WithName;
    PeopleFromOk(t);
  }

  /** Number 2 arrives with the email of number 1. */
  lemma NumberTwoNotFound()
    ensures var e := Employee("1", "A", "", "A", "a@b", None, None, "Active", SOURCE, None);
      var t := Tables([], [], [e], [], [], []);
      var row := EmployeeRow(2, "2", "a@b", "A", "", "", true, false);
      && PeopleOk(PeopleFrom(t)) && EntryOf(row).number == "2"
      && "2" !in EmployeeStep(PeopleFrom(t), EntryOf(row)).byNumber
  {
    var e := Employee("1", "A", "", "A", "a@b", None, None, "Active", SOURCE, None);
    var t := Tables([], [], [e], [], [], []);
    var row := EmployeeRow(2, "2", "a@b", "A", "", "", true, false);
    hide Lower, EntryOf, NumberIndex, EmailIndex, EmployeeStep, PeopleOk, PeopleFrom;
    PlainTexts();
    OneIndexed(e);
    NumberAndEmail(row);
    NewNumberNotFound(t, row);
  }

  lemma OneIndexed(e: Employee)
    ensures NumberIndex([e]) == map[Lower(e.number) := 0] && EmailIndex([e]) == map[Lower(e.email) := 0]
  {
    hide Lower;
    assert [e][..0] == [];
  }

  lemma PlainTexts()
    ensures Lower("a@b") == "a@b" && Lower("1") == "1" && Lower("2") == "2"
  {
  }

  lemma NumberAndEmail(row: EmployeeRow)
    requires row.number == "2" && row.email == "a@b"
    ensures EntryOf(row).number == "2" && EntryOf(row).email == "a@b"
  {
    hide Lower, Strip, SplitName, IdText;
    PlainTexts();
    assert Trim("2") && Trim("a@b");
    TrimStays("2");
    TrimStays("a@b");
  }

  lemma ImportNothing(start: People)
    requires PeopleOk(start)
    ensures ImportEmployees(start, []) == start
  {
  }

  lemma ImportOneMore(start: People, entries: seq<EmployeeEntry>, e: EmployeeEntry)
    requires PeopleOk(start)
    ensures ImportEmployees(start, entries + [e]) ==
      Linked(Stored(ImportEmployees(start, entries), e), e, EmployeeId(ImportEmployees(start, entries), e))
  {
    hide Stored, Linked, EmployeeId;
    assert (entries + [e])[..|entries|] == entries;
  }
}
