/** Role inheritance: three searches that follow parent pointers, which may form
    cycles, and the reachability they must agree with. */
module RoleGraph {
  import opened Wrappers

  /** A role definition; `permissions` maps an area to the permissions in it. */
  datatype Role = Role(key: string, permissions: map<string, set<string>>, parent: Option<int>, active: bool) {
    predicate Lists(area: string, permission: string) {
      area in permissions && permission in permissions[area]
    }

    /** The role grants an incident permission under its full or its short name. */
    predicate Grants(permission: string) {
      Lists("incidents", permission) || Lists("incidents", ShortName(permission))
    }
  }

  type Graph = map<int, Role>

  datatype BaseRole = EndUser | Technician | TeamLead | Manager | Admin | Auditor

  /** What follows the first dot, or all of a name without a dot. */
  function ShortName(permission: string): string {
    AfterDot(permission, permission)
  }

  function AfterDot(text: string, whole: string): string {
    if text == [] then whole
    else if text[0] == '.' then text[1..]
    else AfterDot(text[1..], whole)
  }

  function BasePermissions(role: BaseRole): set<string> {
    match role
    case EndUser => {"incidents.submit", "incidents.view_own"}
    case Technician => {"incidents.submit", "incidents.submit_on_behalf", "incidents.view_group", "incidents.assign",
                        "incidents.resolve"}
    case TeamLead => {"incidents.submit", "incidents.submit_on_behalf", "incidents.view_group", "incidents.assign",
                      "incidents.override_priority", "incidents.resolve", "incidents.close"}
    case Manager => {"incidents.submit", "incidents.submit_on_behalf", "incidents.view_all", "incidents.assign",
                     "incidents.override_priority", "incidents.resolve", "incidents.close"}
    case Admin => {"*"}
    case Auditor => {"incidents.view_all"}
  }

  // ---------------------------------------------------------------- reachability

  /** A chain of existing roles, each the parent of the one before it; roles that
      are reached as parents are active. */
  ghost predicate Chain(g: Graph, path: seq<int>) {
    && path != []
    && (forall i | 0 <= i < |path| :: path[i] in g)
    && (forall i, j | 0 <= i < j < |path| && j == i + 1 :: Inherits(g, path[i], path[j]))
  }

  predicate Inherits(g: Graph, id: int, parent: int) {
    id in g && g[id].parent == Some(parent) && parent in g && g[parent].active
  }

  ghost predicate Reachable(g: Graph, starts: set<int>, id: int) {
    exists path :: Chain(g, path) && path[0] in starts && path[|path| - 1] == id
  }

  /** Some reachable role lists the permission in the area. */
  ghost predicate Reaches(g: Graph, starts: set<int>, area: string, permission: string) {
    exists id :: Reachable(g, starts, id) && id in g && g[id].Lists(area, permission)
  }

  /** Some reachable role grants the incident permission. */
  ghost predicate ReachesGrant(g: Graph, starts: set<int>, permission: string) {
    Reaches(g, starts, "incidents", permission) || Reaches(g, starts, "incidents", ShortName(permission))
  }

  function ActiveRoles(g: Graph, ids: seq<int>): set<int> {
    set id | id in ids && id in g && g[id].active
  }

  lemma StartReachable(g: Graph, starts: set<int>, id: int)
    requires id in starts && id in g
    ensures Reachable(g, starts, id)
  {
    assert Chain(g, [id]);
  }

  lemma ParentReachable(g: Graph, starts: set<int>, id: int, parent: int)
    requires Reachable(g, starts, id) && Inherits(g, id, parent)
    ensures Reachable(g, starts, parent)
  {
    var path :| Chain(g, path) && path[0] in starts && path[|path| - 1] == id;
    assert Chain(g, path + [parent]);
  }

  // ---------------------------------------------------------------- the worklist

  /** The state of a search: what was visited is reachable, and nothing reachable
      in one step from it, nor any start, is forgotten. */
  ghost predicate Searching(g: Graph, starts: set<int>, visited: set<int>, stack: seq<int>) {
    && (forall id | id in visited :: id in g && Reachable(g, starts, id))
    && (forall id | id in stack && id in g && (g[id].active || id in starts) :: Reachable(g, starts, id))
    && (forall id | id in starts :: id in visited || id in stack)
    && (forall id, parent | id in visited && Inherits(g, id, parent) :: parent in visited || parent in stack)
  }

  lemma {:induction false} FinishedSearchCovers(g: Graph, starts: set<int>, visited: set<int>, path: seq<int>)
    requires Searching(g, starts, visited, [])
    requires Chain(g, path) && path[0] in starts
    ensures path[|path| - 1] in visited
    decreases |path|
  {
    var last := |path| - 1;
    if 0 < last {
      FinishedSearchCovers(g, starts, visited, path[..last]);
      assert Inherits(g, path[last - 1], path[last]);
    } else {
      var id := path[0];
      assert id in starts && id in visited;
    }
  }

  lemma FinishedSearchIsReachable(g: Graph, starts: set<int>, visited: set<int>)
    requires Searching(g, starts, visited, [])
    ensures forall id :: id in visited <==> Reachable(g, starts, id)
  {
    forall id | Reachable(g, starts, id) ensures id in visited {
      var path :| Chain(g, path) && path[0] in starts && path[|path| - 1] == id;
      FinishedSearchCovers(g, starts, visited, path);
    }
  }

  /** Dropping an entry that was visited before, or that leads nowhere. */
  lemma PopKeepsSearching(g: Graph, starts: set<int>, visited: set<int>, stack: seq<int>)
    requires stack != [] && Searching(g, starts, visited, stack)
    requires var id := stack[|stack| - 1]; id in visited || (id !in starts && !(id in g && g[id].active))
    ensures Searching(g, starts, visited, stack[..|stack| - 1])
  {
    var rest, last := stack[..|stack| - 1], stack[|stack| - 1];
    assert stack == rest + [last];
  }

  /** Visiting an entry and pushing its parent, when the parent leads on. */
  lemma VisitKeepsSearching(g: Graph, starts: set<int>, visited: set<int>, stack: seq<int>, pushed: seq<int>)
    requires stack != [] && Searching(g, starts, visited, stack)
    requires stack[|stack| - 1] in g && (stack[|stack| - 1] in starts || g[stack[|stack| - 1]].active)
    requires forall p | p in pushed :: g[stack[|stack| - 1]].parent == Some(p)
    requires forall p | Inherits(g, stack[|stack| - 1], p) :: p in pushed
    ensures Searching(g, starts, visited + {stack[|stack| - 1]}, stack[..|stack| - 1] + pushed)
  {
    var rest, id := stack[..|stack| - 1], stack[|stack| - 1];
    assert stack == rest + [id];
    forall p | p in pushed && p in g && (g[p].active || p in starts) ensures Reachable(g, starts, p) {
      if g[p].active {
        ParentReachable(g, starts, id, p);
      } else {
        StartReachable(g, starts, p);
      }
    }
  }

  // ---------------------------------------------------------------- the searches

  /** Whether the user holds an incident permission: the base role has it, or some
      role reachable from an active assigned role grants it. */
  method HasPermission(g: Graph, base: BaseRole, held: seq<int>, permission: string) returns (r: bool)
    ensures r <==>
      || "*" in BasePermissions(base) || permission in BasePermissions(base)
      || ReachesGrant(g, ActiveRoles(g, held), permission)
  {
    if "*" in BasePermissions(base) || permission in BasePermissions(base) {
      return true;
    }
    ghost var starts := ActiveRoles(g, held);
    var stack: seq<int>, visited: set<int> := held, {};
    InitialSearch(g, starts, held);
    while stack != []
      invariant Searching(g, starts, visited, stack)
      invariant forall id | id in visited :: !g[id].Grants(permission)
      decreases g.Keys - visited, |stack|
    {
      var id := stack[|stack| - 1];
      if id !in g || !g[id].active || id in visited {
        PopKeepsSearching(g, starts, visited, stack);
        stack := stack[..|stack| - 1];
      } else {
        if g[id].Grants(permission) {
          assert Reachable(g, starts, id);
          return true;
        }
        var parent := match g[id].parent case None => [] case Some(p) => [p];
        VisitKeepsSearching(g, starts, visited, stack, parent);
        stack, visited := stack[..|stack| - 1] + parent, visited + {id};
      }
    }
    FinishedSearchIsReachable(g, starts, visited);
    r := false;
  }

  lemma InitialSearch(g: Graph, starts: set<int>, stack: seq<int>)
    requires forall id | id in starts :: id in g && id in stack
    requires forall id | id in stack && id in g && g[id].active :: id in starts
    ensures Searching(g, starts, {}, stack)
  {
    forall id | id in starts ensures Reachable(g, starts, id) {
      StartReachable(g, starts, id);
    }
  }

  /** The rows of a query in some order. */
  method Listed<T(==)>(ids: set<T>) returns (rows: seq<T>)
    ensures forall id :: id in rows <==> id in ids
  {
    rows := [];
    var rest := ids;
    while rest != {}
      invariant rest <= ids
      invariant forall id :: id in rows <==> id in ids && id !in rest
    {
      var id :| id in rest;
      rows, rest := rows + [id], rest - {id};
    }
  }

  /** Some role reachable from the starts may administer. */
  ghost predicate ReachesAdminister(g: Graph, starts: set<int>) {
    Reaches(g, starts, "administration", "administer")
  }

  /** Whether the user may administer: as an administrator, or through a role
      reachable from an active assigned role. */
  method HasAdministrationAccess(g: Graph, base: BaseRole, held: seq<int>) returns (r: bool)
    ensures r <==> base == Admin || ReachesAdminister(g, ActiveRoles(g, held))
  {
    if base == Admin {
      return true;
    }
    ghost var starts := ActiveRoles(g, held);
    var stack := Listed(ActiveRoles(g, held));
    var visited: set<int> := {};
    InitialSearch(g, starts, stack);
    while stack != []
      invariant Searching(g, starts, visited, stack)
      invariant forall id | id in stack :: id in g && g[id].active
      invariant forall id | id in visited :: !g[id].Lists("administration", "administer")
      decreases g.Keys - visited, |stack|
    {
      var id := stack[|stack| - 1];
      if id in visited {
        PopKeepsSearching(g, starts, visited, stack);
        stack := stack[..|stack| - 1];
      } else {
        if g[id].Lists("administration", "administer") {
          assert Reachable(g, starts, id);
          return true;
        }
        var parent := ActiveParent(g, id);
        VisitKeepsSearching(g, starts, visited, stack, parent);
        stack, visited := stack[..|stack| - 1] + parent, visited + {id};
      }
    }
    FinishedSearchIsReachable(g, starts, visited);
    r := false;
  }

  /** The parent to push: only one that exists and is active. */
  function ActiveParent(g: Graph, id: int): seq<int>
    requires id in g
  {
    match g[id].parent
    case None => []
    case Some(p) => if p in g && g[p].active then [p] else []
  }

  /** The roles the permission report starts from: the definition named after the
      base role and the assigned roles, active or not. */
  function ReportedRoles(g: Graph, key: string, held: seq<int>): set<int> {
    set id | id in g && (g[id].key == key || id in held)
  }

  /** The report lists, area by area, what the reachable roles list. */
  method EffectivePermissions(g: Graph, key: string, held: seq<int>) returns (effective: map<string, set<string>>)
    ensures forall area, permission :: Shows(effective, area, permission) <==>
      Reaches(g, ReportedRoles(g, key, held), area, permission)
  {
    ghost var starts := ReportedRoles(g, key, held);
    var stack := Listed(ReportedRoles(g, key, held));
    var visited: set<int>, expanded: seq<int> := {}, [];
    forall id | id in starts ensures Reachable(g, starts, id) {
      StartReachable(g, starts, id);
    }
    while stack != []
      invariant Searching(g, starts, visited, stack)
      invariant forall id | id in stack :: id in g && (g[id].active || id in starts)
      invariant forall id :: id in visited <==> id in expanded
      invariant forall id | id in expanded :: id in g
      decreases g.Keys - visited, |stack|
    {
      var id := stack[|stack| - 1];
      if id in visited {
        PopKeepsSearching(g, starts, visited, stack);
        stack := stack[..|stack| - 1];
      } else {
        var parent := ActiveParent(g, id);
        VisitKeepsSearching(g, starts, visited, stack, parent);
        stack, visited, expanded := stack[..|stack| - 1] + parent, visited + {id}, expanded + [id];
      }
    }
    FinishedSearchIsReachable(g, starts, visited);
    effective := Collect(g, expanded);
    forall area, permission
      ensures Shows(effective, area, permission) <==> Reaches(g, starts, area, permission)
    {
      ListedByExpanded(g, starts, expanded, area, permission);
    }
  }

  /** Gathers the permissions of the roles, area by area. */
  method Collect(g: Graph, roles: seq<int>) returns (effective: map<string, set<string>>)
    requires forall id | id in roles :: id in g
    ensures forall area, permission :: Shows(effective, area, permission) <==> Listing(g, roles, area, permission)
  {
    effective := map[];
    for i := 0 to |roles|
      invariant forall area, permission ::
        Shows(effective, area, permission) <==> Listing(g, roles[..i], area, permission)
    {
      var id := roles[i];
      assert id in roles;
      forall area, permission
        ensures Listing(g, roles[..i] + [id], area, permission) <==>
          Listing(g, roles[..i], area, permission) || g[id].Lists(area, permission)
      {
        ListingOneMore(g, roles[..i], id, area, permission);
      }
      assert roles[..i + 1] == roles[..i] + [id];
      effective := Merged(effective, g[id].permissions);
    }
    assert roles[..|roles|] == roles;
  }

  ghost predicate Listing(g: Graph, roles: seq<int>, area: string, permission: string) {
    exists id :: id in roles && id in g && g[id].Lists(area, permission)
  }

  lemma ListingOneMore(g: Graph, roles: seq<int>, id: int, area: string, permission: string)
    requires id in g
    ensures Listing(g, roles + [id], area, permission) <==>
      Listing(g, roles, area, permission) || g[id].Lists(area, permission)
  {
    assert id in roles + [id];
    forall other ensures other in roles + [id] <==> other in roles || other == id {
    }
  }

  predicate Shows(report: map<string, set<string>>, area: string, permission: string) {
    area in report && permission in report[area]
  }

  lemma ListedByExpanded(g: Graph, starts: set<int>, expanded: seq<int>, area: string, permission: string)
    requires forall id :: id in expanded <==> Reachable(g, starts, id)
    ensures Listing(g, expanded, area, permission) <==> Reaches(g, starts, area, permission)
  {
  }

  /** Adds every permission of `more` to its area. */
  function Merged(base: map<string, set<string>>, more: map<string, set<string>>): map<string, set<string>> {
    map area | area in base.Keys + more.Keys ::
      (if area in base then base[area] else {}) + (if area in more then more[area] else {})
  }

  // ---------------------------------------------------------------- agreement

  /** More starts reach exactly what either set of starts reaches. */
  lemma ReachesUnion(g: Graph, a: set<int>, b: set<int>, area: string, permission: string)
    ensures Reaches(g, a + b, area, permission) <==> Reaches(g, a, area, permission) || Reaches(g, b, area, permission)
  {
    forall id ensures Reachable(g, a + b, id) <==> Reachable(g, a, id) || Reachable(g, b, id) {
      if Reachable(g, a + b, id) {
        var path :| Chain(g, path) && path[0] in a + b && path[|path| - 1] == id;
        assert path[0] in a || path[0] in b;
      }
    }
  }

  /** For anyone but an administrator, access to administration implies that the
      report lists it; what the report lists beyond access comes from inactive
      assigned roles or from the definition named after the base role. */
  lemma AccessAndReport(g: Graph, key: string, held: seq<int>)
    ensures ReachesAdminister(g, ReportedRoles(g, key, held)) <==>
      || ReachesAdminister(g, ActiveRoles(g, held))
      || ReachesAdminister(g, ReportedRoles(g, key, held) - ActiveRoles(g, held))
  {
    var reported, active := ReportedRoles(g, key, held), ActiveRoles(g, held);
    assert reported == active + (reported - active);
    ReachesUnion(g, active, reported - active, "administration", "administer");
  }

  /** The report can list administration that the user does not have: one inactive
      assigned role is enough. */
  lemma ReportCanOverstate()
    ensures var g: Graph := map[1 := Role("auditing", map["administration" := {"administer"}], None, false)];
      && ReachesAdminister(g, ReportedRoles(g, "technician", [1]))
      && !ReachesAdminister(g, ActiveRoles(g, [1]))
  {
    var g: Graph := map[1 := Role("auditing", map["administration" := {"administer"}], None, false)];
    assert 1 in ReportedRoles(g, "technician", [1]);
    StartReachable(g, ReportedRoles(g, "technician", [1]), 1);
    assert g[1].Lists("administration", "administer");
    assert ActiveRoles(g, [1]) == {};
  }

  // ---------------------------------------------------------------- names and base roles

  lemma {:induction false} AfterFirstDot(area: string, rest: string, whole: string)
    requires '.' !in area
    ensures AfterDot(area + "." + rest, whole) == rest
    ensures AfterDot(area, whole) == whole
  {
    if area != [] {
      assert area[0] in area && forall c | c in area[1..] :: c in area;
      assert (area + "." + rest)[1..] == area[1..] + "." + rest;
      AfterFirstDot(area[1..], rest, whole);
    } else {
      assert ("." + rest)[1..] == rest && area + "." + rest == "." + rest;
    }
  }

  /** A short name is what follows the first dot, and all of a name without one. */
  lemma ShortNames(area: string, rest: string)
    requires '.' !in area
    ensures ShortName(area + "." + rest) == rest && ShortName(area) == area
  {
    AfterFirstDot(area, rest, area + "." + rest);
    AfterFirstDot(area, rest, area);
  }

  /** Who may what by the base role alone, permission by permission. */
  lemma WhoMay(role: BaseRole)
    ensures "*" in BasePermissions(role) <==> role == Admin
    ensures "incidents.submit" in BasePermissions(role) <==> role in {EndUser, Technician, TeamLead, Manager}
    ensures "incidents.view_own" in BasePermissions(role) <==> role == EndUser
    ensures "incidents.submit_on_behalf" in BasePermissions(role) <==> role in {Technician, TeamLead, Manager}
    ensures "incidents.view_group" in BasePermissions(role) <==> role in {Technician, TeamLead}
    ensures "incidents.view_all" in BasePermissions(role) <==> role in {Manager, Auditor}
    ensures "incidents.assign" in BasePermissions(role) <==> role in {Technician, TeamLead, Manager}
    ensures "incidents.resolve" in BasePermissions(role) <==> role in {Technician, TeamLead, Manager}
    ensures "incidents.override_priority" in BasePermissions(role) <==> role in {TeamLead, Manager}
    ensures "incidents.close" in BasePermissions(role) <==> role in {TeamLead, Manager}
  {
  }

  /** A chain of roles that starts at the definition named after the base role or at an
      assigned one, active or not, and ends at a role that lists the permission. */
  ghost predicate ReportChain(g: Graph, key: string, held: seq<int>, area: string, permission: string, path: seq<int>) {
    && path != [] && (forall i | 0 <= i < |path| :: path[i] in g)
    && (g[path[0]].key == key || path[0] in held)
    && (forall i | 0 < i < |path| :: g[path[i - 1]].parent == Some(path[i]) && g[path[i]].active)
    && area in g[path[|path| - 1]].permissions && permission in g[path[|path| - 1]].permissions[area]
  }

  /** The report lists exactly what such chains lead to. */
  lemma ReportedExactly(g: Graph, key: string, held: seq<int>, area: string, permission: string)
    ensures Reaches(g, ReportedRoles(g, key, held), area, permission) <==>
      exists path :: ReportChain(g, key, held, area, permission, path)
  {
    var starts := ReportedRoles(g, key, held);
    if Reaches(g, starts, area, permission) {
      var id :| Reachable(g, starts, id) && id in g && g[id].Lists(area, permission);
      var path :| Chain(g, path) && path[0] in starts && path[|path| - 1] == id;
      ChainSteps(g, path);
      assert ReportChain(g, key, held, area, permission, path);
    }
    if path :| ReportChain(g, key, held, area, permission, path) {
      ChainSteps(g, path);
      var start := path[0];
      assert start in starts;
      assert Reachable(g, starts, path[|path| - 1]);
    }
  }

  lemma ChainSteps(g: Graph, path: seq<int>)
    ensures Chain(g, path) <==>
      && path != [] && (forall i | 0 <= i < |path| :: path[i] in g)
      && (forall i | 0 < i < |path| :: g[path[i - 1]].parent == Some(path[i]) && g[path[i]].active)
  {
    if Chain(g, path) {
      forall i | 0 < i < |path| ensures g[path[i - 1]].parent == Some(path[i]) && g[path[i]].active {
        assert Inherits(g, path[i - 1], path[i]);
      }
    }
  }

  /** A chain of active roles from an assigned one to a role that lists the incident
      permission under its full or its short name. */
  ghost predicate GrantChain(g: Graph, held: seq<int>, permission: string, path: seq<int>) {
    && path != [] && path[0] in held && (forall i | 0 <= i < |path| :: path[i] in g && g[path[i]].active)
    && (forall i | 0 < i < |path| :: g[path[i - 1]].parent == Some(path[i]))
    && "incidents" in g[path[|path| - 1]].permissions
    && (permission in g[path[|path| - 1]].permissions["incidents"]
        || ShortName(permission) in g[path[|path| - 1]].permissions["incidents"])
  }

  lemma GrantPath(g: Graph, held: seq<int>, permission: string, name: string)
    requires name == permission || name == ShortName(permission)
    requires Reaches(g, ActiveRoles(g, held), "incidents", name)
    ensures exists path :: GrantChain(g, held, permission, path)
  {
    var starts := ActiveRoles(g, held);
    var id :| Reachable(g, starts, id) && id in g && g[id].Lists("incidents", name);
    var path :| Chain(g, path) && path[0] in starts && path[|path| - 1] == id;
    ChainSteps(g, path);
    assert name in g[path[|path| - 1]].permissions["incidents"];
    assert GrantChain(g, held, permission, path);
  }

  /** A permission beyond the base role is granted exactly along such chains. */
  lemma GrantedExactly(g: Graph, held: seq<int>, permission: string)
    ensures ReachesGrant(g, ActiveRoles(g, held), permission) <==>
      exists path :: GrantChain(g, held, permission, path)
  {
    var starts := ActiveRoles(g, held);
    if Reaches(g, starts, "incidents", permission) {
      GrantPath(g, held, permission, permission);
    } else if Reaches(g, starts, "incidents", ShortName(permission)) {
      GrantPath(g, held, permission, ShortName(permission));
    }
    if path :| GrantChain(g, held, permission, path) {
      ChainSteps(g, path);
      var start, id := path[0], path[|path| - 1];
      assert start in starts;
      assert Reachable(g, starts, id);
      assert g[id].Lists("incidents", permission) || g[id].Lists("incidents", ShortName(permission));
    }
  }
}
