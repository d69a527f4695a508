/** The choice of a technician for a ticket: in turn, or whoever has the fewest
    open tickets. */
module Routing {
  import opened Wrappers

  /** Whose turn it is is remembered per key. */
  datatype Key = QueueKey(id: int) | TeamKey(id: int)

  /** Incident routing remembers a team without a queue under the queue key of the
      same number. */
  function IncidentKey(queue: Option<int>, team: int): Key {
    QueueKey(if queue.Some? then queue.value else team)
  }

  predicate Distinct(ids: seq<int>) {
    forall i, j | 0 <= i < j < |ids| :: ids[i] != ids[j]
  }

  function IndexOf(ids: seq<int>, id: int): (r: nat)
    requires id in ids
    ensures r < |ids| && ids[r] == id
  {
    if ids[0] == id then 0 else 1 + IndexOf(ids[1..], id)
  }

  /** The position after `i`, starting over at the end. */
  function Successor(i: nat, n: nat): (r: nat)
    requires i < n
    ensures r < n
  {
    (i + 1) % n
  }

  lemma SuccessorWraps(i: nat, n: nat)
    requires i < n
    ensures Successor(i, n) == if i + 1 == n then 0 else i + 1
  {
  }

  /** The technician after the last one chosen, starting over at the end; the first
      one when the last choice is unknown or no longer eligible. */
  function NextInTurn(ids: seq<int>, last: Option<int>): int
    requires ids != []
  {
    if last.Some? && last.value in ids then ids[Successor(IndexOf(ids, last.value), |ids|)] else ids[0]
  }

  function Load(counts: map<int, nat>, id: int): nat {
    if id in counts then counts[id] else 0
  }

  predicate Lighter(counts: map<int, nat>, a: int, b: int) {
    Load(counts, a) < Load(counts, b) || (Load(counts, a) == Load(counts, b) && a <= b)
  }

  /** The least loaded technician; the lowest id among equals. */
  function LeastActive(ids: seq<int>, counts: map<int, nat>): (r: int)
    requires ids != []
    ensures r in ids && forall id | id in ids :: Lighter(counts, r, id)
  {
    if |ids| == 1 then ids[0]
    else
      var first, rest := ids[0], LeastActive(ids[1..], counts);
      assert forall id | id in ids :: id == first || id in ids[1..];
      if Lighter(counts, first, rest) then first else rest
  }

  function Inserted(sorted: seq<int>, id: int): (r: seq<int>)
    ensures multiset(r) == multiset(sorted) + multiset{id}
  {
    if sorted == [] || id <= sorted[0] then [id] + sorted
    else
      assert sorted == [sorted[0]] + sorted[1..];
      [sorted[0]] + Inserted(sorted[1..], id)
  }

  function SortedById(ids: seq<int>): (r: seq<int>)
    ensures multiset(r) == multiset(ids)
  {
    if ids == [] then []
    else
      assert ids == [ids[0]] + ids[1..];
      Inserted(SortedById(ids[1..]), ids[0])
  }

  function Underscored(strategy: string): string {
    seq(|strategy|, i requires 0 <= i < |strategy| => if strategy[i] == ' ' then '_' else strategy[i])
  }

  /** The technician remembered under a key. */
  function LastIn(lastUser: map<Key, int>, key: Key): Option<int> {
    if key in lastUser then Some(lastUser[key]) else None
  }

  class Router {
    var lastUser: map<Key, int>

    constructor ()
      ensures lastUser == map[]
    {
      lastUser := map[];
    }

    function LastFor(key: Key): Option<int>
      reads this
    {
      LastIn(lastUser, key)
    }

    /** Takes the next turn under `key` and remembers it; no other key is touched. */
    method TakeTurn(key: Key, ids: seq<int>) returns (pick: int)
      requires ids != []
      modifies this
      ensures pick == NextInTurn(ids, old(LastFor(key)))
      ensures lastUser == old(lastUser)[key := pick]
    {
      pick := NextInTurn(ids, LastFor(key));
      lastUser := lastUser[key := pick];
    }

    /** Selection for an incident; `techs` are in id order. */
    method SelectForIncident(strategy: string, queue: Option<int>, team: int, techs: seq<int>, counts: map<int, nat>)
      returns (pick: Option<int>)
      modifies this
      ensures var s, key := Underscored(strategy), IncidentKey(queue, team);
        if techs == [] || s == "manual" then pick == None && unchanged(this)
        else if s in {"least_active", "lowest_workload"} then
          pick == Some(LeastActive(techs, counts)) && unchanged(this)
        else pick == Some(NextInTurn(techs, old(LastFor(key)))) && lastUser == old(lastUser)[key := pick.value]
    {
      pick := None;
      var s := Underscored(strategy);
      if techs != [] {
        if s in {"least_active", "lowest_workload"} {
          pick := Some(LeastActive(techs, counts));
        } else if s != "manual" {
          var id := TakeTurn(IncidentKey(queue, team), techs);
          pick := Some(id);
        }
      }
    }

    /** Selection inside a team; `techs` come in any order. */
    method SelectForTicket(routing: string, team: int, techs: seq<int>, counts: map<int, nat>)
      returns (pick: Option<int>)
      modifies this
      ensures var key := TeamKey(team);
        if techs == [] || routing == "manual" then pick == None && unchanged(this)
        else if routing != "round_robin" then pick == Some(LeastActive(techs, counts)) && unchanged(this)
        else
          pick == Some(NextInTurn(SortedById(techs), old(LastFor(key)))) && lastUser == old(lastUser)[key := pick.value]
    {
      if techs == [] || routing == "manual" {
        return None;
      }
      if routing == "round_robin" {
        assert multiset(SortedById(techs)) == multiset(techs) && techs[0] in multiset(techs);
        var id := TakeTurn(TeamKey(team), SortedById(techs));
        return Some(id);
      }
      pick := Some(LeastActive(techs, counts));
    }
  }

  /** The choice is the technician with the fewest open tickets and, among those with as
      few, the one with the lowest id. */
  lemma LeastExactly(ids: seq<int>, counts: map<int, nat>, pick: int)
    requires ids != []
    ensures LeastActive(ids, counts) == pick <==>
      && pick in ids
      && (forall id | id in ids :: Load(counts, pick) <= Load(counts, id))
      && (forall id | id in ids && Load(counts, id) == Load(counts, pick) :: pick <= id)
  {
    var least := LeastActive(ids, counts);
    assert Lighter(counts, least, least);
    if pick in ids {
      assert Lighter(counts, least, pick);
    }
  }

  /** A technician without open tickets is not counted, and counts as having none. */
  lemma UncountedIsIdle(ids: seq<int>, counts: map<int, nat>, id: int)
    requires id in ids && id !in counts
    ensures var pick := LeastActive(ids, counts); pick in counts ==> counts[pick] == 0 && pick <= id
  {
  }

  /** A rule may write its strategy with spaces. */
  lemma StrategyNames(strategy: string)
    ensures |Underscored(strategy)| == |strategy|
    ensures forall i | 0 <= i < |strategy| ::
      Underscored(strategy)[i] == if strategy[i] == ' ' then '_' else strategy[i]
    ensures Underscored("least active") == "least_active" && Underscored("lowest workload") == "lowest_workload"
  {
  }

  // ---------------------------------------------------------------- taking turns

  /** The technician after the one remembered is next, the first after the last; the
      first is next when nobody is remembered or the one remembered is not eligible. */
  lemma NextExactly(ids: seq<int>, i: nat, last: Option<int>)
    requires Distinct(ids) && i < |ids|
    ensures NextInTurn(ids, Some(ids[i])) == if i + 1 < |ids| then ids[i + 1] else ids[0]
    ensures last.None? || last.value !in ids ==> NextInTurn(ids, last) == ids[0]
  {
    hide Successor;
    IndexOfDistinct(ids, i);
    SuccessorWraps(i, |ids|);
  }

  /** `k` consecutive selections from the same eligible technicians. */
  function Turns(ids: seq<int>, last: Option<int>, k: nat): (r: seq<int>)
    requires ids != []
    ensures |r| == k
    decreases k
  {
    if k == 0 then []
    else
      var pick := NextInTurn(ids, last);
      [pick] + Turns(ids, Some(pick), k - 1)
  }

  /** All technicians once, from position `p` on. */
  function Rotation(ids: seq<int>, p: nat): seq<int>
    requires p <= |ids|
  {
    ids[p..] + ids[..p]
  }

  function Start(ids: seq<int>, last: Option<int>): (p: nat)
    requires ids != []
    ensures p < |ids| && ids[p] == NextInTurn(ids, last)
  {
    if last.Some? && last.value in ids then Successor(IndexOf(ids, last.value), |ids|) else 0
  }

  lemma {:induction false} IndexOfDistinct(ids: seq<int>, i: nat)
    requires Distinct(ids) && i < |ids|
    ensures IndexOf(ids, ids[i]) == i
  {
    if 0 < i {
      IndexOfDistinct(ids[1..], i - 1);
    }
  }

  lemma NextStart(ids: seq<int>, p: nat)
    requires Distinct(ids) && p < |ids|
    ensures Start(ids, Some(ids[p])) == if p + 1 == |ids| then 0 else p + 1
  {
    hide Successor;
    IndexOfDistinct(ids, p);
    SuccessorWraps(p, |ids|);
    var id := ids[p];
    assert id in ids;
  }

  lemma RotationStep(ids: seq<int>, p: nat, k: nat)
    requires p < |ids| && 0 < k <= |ids|
    ensures Rotation(ids, p)[..k] == [ids[p]] + Rotation(ids, if p + 1 == |ids| then 0 else p + 1)[..k - 1]
  {
  }

  /** Up to a full round, the selections walk once through the rotation. */
  lemma {:induction false} TurnsWalk(ids: seq<int>, last: Option<int>, k: nat)
    requires ids != [] && Distinct(ids) && k <= |ids|
    ensures Turns(ids, last, k) == Rotation(ids, Start(ids, last))[..k]
    decreases k
  {
    hide Successor, Distinct, Rotation, Start, NextInTurn;
    if 0 < k {
      var p := Start(ids, last);
      NextStart(ids, p);
      TurnsWalk(ids, Some(ids[p]), k - 1);
      RotationStep(ids, p, k);
    }
  }

  lemma {:induction false} TurnsSplit(ids: seq<int>, last: Option<int>, j: nat, k: nat)
    requires ids != []
    ensures Turns(ids, last, j + k) ==
      Turns(ids, last, j) + Turns(ids, if j == 0 then last else Some(Turns(ids, last, j)[j - 1]), k)
    decreases j
  {
    if 0 < j {
      TurnsSplit(ids, Some(NextInTurn(ids, last)), j - 1, k);
    }
  }

  lemma RotationPermutes(ids: seq<int>, p: nat)
    requires p <= |ids|
    ensures multiset(Rotation(ids, p)) == multiset(ids)
  {
    assert ids == ids[..p] + ids[p..];
  }

  /** Any round of `n` consecutive selections, at any point of a run, is a
      permutation of the `n` eligible technicians. */
  lemma RoundIsPermutation(ids: seq<int>, last: Option<int>, j: nat)
    requires ids != [] && Distinct(ids)
    ensures multiset(Turns(ids, last, j + |ids|)[j..]) == multiset(ids)
  {
    TurnsSplit(ids, last, j, |ids|);
    var before := if j == 0 then last else Some(Turns(ids, last, j)[j - 1]);
    assert Turns(ids, last, j + |ids|)[j..] == Turns(ids, before, |ids|);
    TurnsWalk(ids, before, |ids|);
    assert Rotation(ids, Start(ids, before))[..|ids|] == Rotation(ids, Start(ids, before));
    RotationPermutes(ids, Start(ids, before));
  }

  lemma {:induction false} DistinctOnce(ids: seq<int>, id: int)
    requires Distinct(ids)
    ensures multiset(ids)[id] == if id in ids then 1 else 0
  {
    if ids != [] {
      DistinctOnce(ids[1..], id);
      assert ids == [ids[0]] + ids[1..];
    }
  }

  lemma RotationDistinct(ids: seq<int>, p: nat, k: nat)
    requires Distinct(ids) && p <= |ids| && k <= |ids|
    ensures Distinct(Rotation(ids, p)[..k])
  {
  }

  /** How often the first `k` selections fall on technician `a`. */
  ghost function Count(ids: seq<int>, last: Option<int>, k: nat, a: int): nat
    requires ids != []
  {
    multiset(Turns(ids, last, k))[a]
  }

  lemma ShortRunFair(ids: seq<int>, last: Option<int>, k: nat, a: int)
    requires ids != [] && Distinct(ids) && k <= |ids|
    ensures Count(ids, last, k, a) <= 1
  {
    TurnsWalk(ids, last, k);
    RotationDistinct(ids, Start(ids, last), k);
    DistinctOnce(Turns(ids, last, k), a);
  }

  lemma CountConcat(s: seq<int>, t: seq<int>, a: int)
    ensures multiset(s + t)[a] == multiset(s)[a] + multiset(t)[a]
  {
  }

  /** The last selection of a full round. */
  ghost function AfterRound(ids: seq<int>, last: Option<int>): Option<int>
    requires ids != []
  {
    Some(Turns(ids, last, |ids|)[|ids| - 1])
  }

  /** A full round selects everyone once more. */
  lemma RoundAddsOne(ids: seq<int>, last: Option<int>, k: nat, a: int)
    requires ids != [] && Distinct(ids) && a in ids
    ensures Count(ids, last, |ids| + k, a) == 1 + Count(ids, AfterRound(ids, last), k, a)
  {
    hide NextInTurn, Distinct, Turns;
    TurnsSplit(ids, last, |ids|, k);
    CountConcat(Turns(ids, last, |ids|), Turns(ids, AfterRound(ids, last), k), a);
    FullRound(ids, last, a);
  }

  lemma FullRound(ids: seq<int>, last: Option<int>, a: int)
    requires ids != [] && Distinct(ids) && a in ids
    ensures multiset(Turns(ids, last, |ids|))[a] == 1
  {
    RoundIsPermutation(ids, last, 0);
    assert Turns(ids, last, 0 + |ids|)[0..] == Turns(ids, last, |ids|);
    DistinctOnce(ids, a);
  }

  /** Over any `k` consecutive selections, two technicians' counts differ by at
      most one. */
  lemma {:induction false} TurnsAreFair(ids: seq<int>, last: Option<int>, k: nat, a: int, b: int)
    requires ids != [] && Distinct(ids) && a in ids && b in ids
    ensures Count(ids, last, k, a) <= Count(ids, last, k, b) + 1
    decreases k
  {
    hide NextInTurn, Turns, Distinct, Count, AfterRound;
    if k <= |ids| {
      ShortRunFair(ids, last, k, a);
    } else {
      RoundAddsOne(ids, last, k - |ids|, a);
      RoundAddsOne(ids, last, k - |ids|, b);
      TurnsAreFair(ids, AfterRound(ids, last), k - |ids|, a, b);
    }
  }

  /** Two queries that return the same technicians in different orders take turns
      through the same sequence. */
  lemma SortedSame(a: seq<int>, b: seq<int>)
    requires multiset(a) == multiset(b)
    ensures SortedById(a) == SortedById(b)
  {
    SortedAscends(a);
    SortedAscends(b);
    AscendingUnique(SortedById(a), SortedById(b));
  }

  predicate Ascending(ids: seq<int>) {
    forall i, j | 0 <= i < j < |ids| :: ids[i] <= ids[j]
  }

  lemma PrependAscends(id: int, ids: seq<int>)
    requires Ascending(ids) && forall i | 0 <= i < |ids| :: id <= ids[i]
    ensures Ascending([id] + ids)
  {
  }

  lemma {:induction false} InsertedAscends(sorted: seq<int>, id: int)
    requires Ascending(sorted)
    ensures Ascending(Inserted(sorted, id))
  {
    if sorted != [] && sorted[0] < id {
      var rest := Inserted(sorted[1..], id);
      InsertedAscends(sorted[1..], id);
      forall i | 0 <= i < |rest| ensures sorted[0] <= rest[i] {
        assert rest[i] in multiset(sorted[1..]) + multiset{id};
      }
      PrependAscends(sorted[0], rest);
    } else {
      PrependAscends(id, sorted);
    }
  }

  lemma {:induction false} SortedAscends(ids: seq<int>)
    ensures Ascending(SortedById(ids))
  {
    if ids != [] {
      SortedAscends(ids[1..]);
      InsertedAscends(SortedById(ids[1..]), ids[0]);
    }
  }

  lemma SameLeast(a: seq<int>, b: seq<int>)
    requires Ascending(a) && Ascending(b) && multiset(a) == multiset(b) && a != [] && b != []
    ensures a[0] == b[0]
  {
    assert a[0] in multiset(b) && b[0] in multiset(a);
  }

  lemma SameRest(a: seq<int>, b: seq<int>)
    requires multiset(a) == multiset(b) && a != [] && b != [] && a[0] == b[0]
    ensures multiset(a[1..]) == multiset(b[1..])
  {
    assert a == [a[0]] + a[1..] && b == [b[0]] + b[1..];
    assert multiset(a[1..]) == multiset(a) - multiset{a[0]};
  }

  lemma {:induction false} AscendingUnique(a: seq<int>, b: seq<int>)
    requires Ascending(a) && Ascending(b) && multiset(a) == multiset(b)
    ensures a == b
  {
    assert |a| == |multiset(a)| == |multiset(b)| == |b|;
    if a != [] {
      SameLeast(a, b);
      SameRest(a, b);
      AscendingUnique(a[1..], b[1..]);
    }
  }

  // ---------------------------------------------------------------- many routes

  /** Where a ticket is routed: to a queue, with the team its rule names or else the
      queue's own, to a team without a queue, or by a category inside a team. */
  datatype Route = ByQueue(id: int, team: int) | ByTeam(id: int) | InTeam(id: int)

  function KeyOf(route: Route): Key {
    match route
    case ByQueue(id, team) => IncidentKey(Some(id), team)
    case ByTeam(id) => IncidentKey(None, id)
    case InTeam(id) => TeamKey(id)
  }

  /** The eligible technicians of a route. */
  type Roster = ids: seq<int> | ids != [] && Distinct(ids) witness [0]

  /** What a ticket leaves remembered. */
  function OneRemembered(staff: Route -> Roster, lastUser: map<Key, int>, route: Route): map<Key, int> {
    lastUser[KeyOf(route) := NextInTurn(staff(route), LastIn(lastUser, KeyOf(route)))]
  }

  /** What is remembered after a run of tickets, one route per ticket. */
  function Remembered(staff: Route -> Roster, lastUser: map<Key, int>, run: seq<Route>): map<Key, int>
    decreases |run|
  {
    if run == [] then lastUser else Remembered(staff, OneRemembered(staff, lastUser, run[0]), run[1..])
  }

  /** The choice for a ticket, if it takes the route. */
  function Chosen(staff: Route -> Roster, lastUser: map<Key, int>, ticket: Route, route: Route): seq<int> {
    if ticket == route then [NextInTurn(staff(route), LastIn(lastUser, KeyOf(route)))] else []
  }

  /** The technicians a run chooses for the tickets of one route. */
  function Picks(staff: Route -> Roster, lastUser: map<Key, int>, run: seq<Route>, route: Route): seq<int>
    decreases |run|
  {
    if run == [] then []
    else Chosen(staff, lastUser, run[0], route) + Picks(staff, OneRemembered(staff, lastUser, run[0]), run[1..], route)
  }

  /** Another route of the run that remembers its turns under the same key. */
  ghost predicate Shares(route: Route, other: Route) { other != route && KeyOf(other) == KeyOf(route) }

  /** The number of tickets of a run that take the route. */
  function Tickets(run: seq<Route>, route: Route): nat {
    if run == [] then 0 else (if run[0] == route then 1 else 0) + Tickets(run[1..], route)
  }

  /** A ticket moves the turn of its own route on, and of no route with another key. */
  lemma TurnMoves(staff: Route -> Roster, lastUser: map<Key, int>, ticket: Route, route: Route)
    requires !Shares(route, ticket)
    ensures LastIn(OneRemembered(staff, lastUser, ticket), KeyOf(route)) ==
      if ticket == route then Some(NextInTurn(staff(route), LastIn(lastUser, KeyOf(route))))
      else LastIn(lastUser, KeyOf(route))
  {
    hide NextInTurn, KeyOf;
  }

  /** A route nobody shares a key with takes its turns undisturbed, whatever other
      tickets come in between. */
  lemma {:induction false} RouteIsolated(staff: Route -> Roster, lastUser: map<Key, int>, run: seq<Route>, route: Route)
    requires forall i | 0 <= i < |run| :: !Shares(route, run[i])
    ensures Picks(staff, lastUser, run, route) ==
      Turns(staff(route), LastIn(lastUser, KeyOf(route)), Tickets(run, route))
    decreases |run|
  {
    hide NextInTurn, KeyOf, OneRemembered, LastIn, Shares;
    if run != [] {
      TurnMoves(staff, lastUser, run[0], route);
      RouteIsolated(staff, OneRemembered(staff, lastUser, run[0]), run[1..], route);
    }
  }

  /** Two technicians' counts among the choices differ by at most one. */
  ghost predicate Fair(picks: seq<int>, ids: seq<int>) {
    forall a, b | a in ids && b in ids :: multiset(picks)[a] <= multiset(picks)[b] + 1
  }

  /** From any remembered state, every run over the routes treats the technicians of
      one route fairly. */
  ghost predicate AlwaysFair(staff: Route -> Roster, routes: set<Route>, route: Route) {
    forall lastUser, run: seq<Route> | (forall i | 0 <= i < |run| :: run[i] in routes) ::
      Fair(Picks(staff, lastUser, run, route), staff(route))
  }

  lemma IsolatedIsFair(staff: Route -> Roster, lastUser: map<Key, int>, run: seq<Route>, route: Route)
    requires forall i | 0 <= i < |run| :: !Shares(route, run[i])
    ensures Fair(Picks(staff, lastUser, run, route), staff(route))
  {
    hide Turns, Picks;
    RouteIsolated(staff, lastUser, run, route);
    forall a, b | a in staff(route) && b in staff(route)
      ensures multiset(Picks(staff, lastUser, run, route))[a] <= multiset(Picks(staff, lastUser, run, route))[b] + 1
    {
      TurnsAreFair(staff(route), LastIn(lastUser, KeyOf(route)), Tickets(run, route), a, b);
    }
  }

  lemma {:induction false} RememberedConcat(staff: Route -> Roster, lastUser: map<Key, int>, a: seq<Route>,
                                            b: seq<Route>)
    ensures Remembered(staff, lastUser, a + b) == Remembered(staff, Remembered(staff, lastUser, a), b)
    decreases |a|
  {
    hide OneRemembered;
    if a == [] {
      assert a + b == b;
    } else {
      assert (a + b)[1..] == a[1..] + b;
      RememberedConcat(staff, OneRemembered(staff, lastUser, a[0]), a[1..], b);
    }
  }

  lemma {:induction false} PicksConcat(staff: Route -> Roster, lastUser: map<Key, int>, a: seq<Route>, b: seq<Route>,
                                       route: Route)
    ensures Picks(staff, lastUser, a + b, route) ==
      Picks(staff, lastUser, a, route) + Picks(staff, Remembered(staff, lastUser, a), b, route)
    decreases |a|
  {
    hide OneRemembered, Chosen;
    if a == [] {
      assert a + b == b;
    } else {
      assert (a + b)[0] == a[0] && (a + b)[1..] == a[1..] + b;
      PicksConcat(staff, OneRemembered(staff, lastUser, a[0]), a[1..], b, route);
    }
  }

  function Repeated(route: Route, k: nat): (r: seq<Route>)
    ensures |r| == k && forall i | 0 <= i < k :: r[i] == route
  {
    seq(k, _ => route)
  }

  /** Tickets of a single route leave its last choice behind. */
  lemma {:induction false} RepeatedRemembers(staff: Route -> Roster, lastUser: map<Key, int>, route: Route, k: nat)
    requires 0 < k
    ensures LastIn(Remembered(staff, lastUser, Repeated(route, k)), KeyOf(route)) ==
      Some(Turns(staff(route), LastIn(lastUser, KeyOf(route)), k)[k - 1])
    decreases k
  {
    hide NextInTurn, KeyOf;
    assert Repeated(route, k)[1..] == Repeated(route, k - 1);
    if 1 < k {
      RepeatedRemembers(staff, OneRemembered(staff, lastUser, route), route, k - 1);
    }
  }

  /** Every technician comes up within a round. */
  lemma TurnOf(ids: seq<int>, last: Option<int>, x: int) returns (k: nat)
    requires ids != [] && Distinct(ids) && x in ids
    ensures 0 < k && Turns(ids, last, k)[k - 1] == x
  {
    hide Turns, Distinct;
    var p := Start(ids, last);
    var round := Rotation(ids, p);
    RotationPermutes(ids, p);
    assert x in multiset(round);
    var i :| 0 <= i < |round| && round[i] == x;
    TurnsWalk(ids, last, i + 1);
    k := i + 1;
  }

  /** However the turns stand, tickets of another route with the same key can make the
      next choice for the route whoever follows `x`. */
  lemma NextAfter(staff: Route -> Roster, lastUser: map<Key, int>, route: Route, other: Route, x: int)
    returns (run: seq<Route>)
    requires Shares(route, other) && x in staff(other)
    ensures forall i | 0 <= i < |run| :: run[i] in {route, other}
    ensures Picks(staff, lastUser, run, route) == [NextInTurn(staff(route), Some(x))]
  {
    hide NextInTurn, Turns;
    var k := TurnOf(staff(other), LastIn(lastUser, KeyOf(other)), x);
    RepeatedRemembers(staff, lastUser, other, k);
    run := Repeated(other, k) + [route];
    PicksConcat(staff, lastUser, Repeated(other, k), [route], route);
    NoPicks(staff, lastUser, Repeated(other, k), route);
    OnePick(staff, Remembered(staff, lastUser, Repeated(other, k)), route);
  }

  lemma OnePick(staff: Route -> Roster, lastUser: map<Key, int>, route: Route)
    ensures Picks(staff, lastUser, [route], route) == [NextInTurn(staff(route), LastIn(lastUser, KeyOf(route)))]
  {
    hide NextInTurn;
    assert [route][1..] == [];
    assert Picks(staff, OneRemembered(staff, lastUser, route), [], route) == [];
  }

  lemma {:induction false} NoPicks(staff: Route -> Roster, lastUser: map<Key, int>, run: seq<Route>, route: Route)
    requires forall i | 0 <= i < |run| :: run[i] != route
    ensures Picks(staff, lastUser, run, route) == []
    decreases |run|
  {
    hide NextInTurn, OneRemembered;
    if run != [] {
      NoPicks(staff, OneRemembered(staff, lastUser, run[0]), run[1..], route);
    }
  }

  /** A shared key is unfair from every state: some run of the two routes gives two
      tickets of the first to one technician and none to another. */
  lemma SharedIsUnfair(staff: Route -> Roster, lastUser: map<Key, int>, route: Route, other: Route)
    returns (run: seq<Route>)
    requires Shares(route, other) && 2 <= |staff(route)|
    ensures forall i | 0 <= i < |run| :: run[i] in {route, other}
    ensures !Fair(Picks(staff, lastUser, run, route), staff(route))
  {
    hide NextInTurn, Picks, Shares;
    var ids, x := staff(route), staff(other)[0];
    var y := NextInTurn(ids, Some(x));
    var first := NextAfter(staff, lastUser, route, other, x);
    var second := NextAfter(staff, Remembered(staff, lastUser, first), route, other, x);
    PicksConcat(staff, lastUser, first, second, route);
    run := first + second;
    PickIsEligible(ids, Some(x));
    var b := if ids[0] == y then ids[1] else ids[0];
    assert Picks(staff, lastUser, run, route) == [y, y];
    assert multiset([y, y])[y] == 2 && multiset([y, y])[b] == 0;
    assert b in ids;
  }

  lemma PickIsEligible(ids: seq<int>, last: Option<int>)
    requires ids != []
    ensures NextInTurn(ids, last) in ids
  {
  }

  /** Round-robin over several routes is fair to a route with two technicians or more,
      in every run and from every state, exactly when no other route shares its key. */
  lemma FairExactly(staff: Route -> Roster, routes: set<Route>, route: Route)
    requires route in routes && 2 <= |staff(route)|
    ensures AlwaysFair(staff, routes, route) <==> forall other | other in routes :: !Shares(route, other)
  {
    hide Picks, Shares, Fair;
    if forall other | other in routes :: !Shares(route, other) {
      forall lastUser, run: seq<Route> | (forall i | 0 <= i < |run| :: run[i] in routes)
        ensures Fair(Picks(staff, lastUser, run, route), staff(route))
      {
        IsolatedIsFair(staff, lastUser, run, route);
      }
    } else {
      var other :| other in routes && Shares(route, other);
      var run := SharedIsUnfair(staff, map[], route, other);
      assert !Fair(Picks(staff, map[], run, route), staff(route));
    }
  }

  /** The routes that share a key: one queue with different teams, or a queue with any
      team and a team without a queue of the queue's number. */
  lemma WhoShares(route: Route, other: Route)
    ensures Shares(route, other) <==>
      || (route.ByQueue? && other.ByQueue? && route.id == other.id && route.team != other.team)
      || (route.ByQueue? && other == ByTeam(route.id))
      || (route.ByTeam? && other.ByQueue? && other.id == route.id)
  {
  }

  // ---------------------------------------------------------------- one key

  /** The technicians a run chooses for all tickets under one key. */
  function KeyPicks(staff: Route -> Roster, lastUser: map<Key, int>, run: seq<Route>, key: Key): seq<int>
    decreases |run|
  {
    if run == [] then []
    else
      KeyChosen(staff, lastUser, run[0], key) + KeyPicks(staff, OneRemembered(staff, lastUser, run[0]), run[1..], key)
  }

  function KeyChosen(staff: Route -> Roster, lastUser: map<Key, int>, ticket: Route, key: Key): seq<int> {
    if KeyOf(ticket) == key then [NextInTurn(staff(ticket), LastIn(lastUser, key))] else []
  }

  function KeyTickets(run: seq<Route>, key: Key): nat {
    if run == [] then 0 else (if KeyOf(run[0]) == key then 1 else 0) + KeyTickets(run[1..], key)
  }

  lemma KeyMoves(staff: Route -> Roster, lastUser: map<Key, int>, ticket: Route, key: Key)
    ensures LastIn(OneRemembered(staff, lastUser, ticket), key) ==
      if KeyOf(ticket) == key then Some(NextInTurn(staff(ticket), LastIn(lastUser, key))) else LastIn(lastUser, key)
  {
    hide NextInTurn, KeyOf;
  }

  /** Whatever routes share a key, as long as they have the same technicians their
      tickets together take turns, undisturbed by other keys, and so are fair. */
  lemma {:induction false} KeyIsolated(staff: Route -> Roster, lastUser: map<Key, int>, run: seq<Route>, key: Key,
                                       ids: Roster)
    requires forall i | 0 <= i < |run| && KeyOf(run[i]) == key :: staff(run[i]) == ids
    ensures KeyPicks(staff, lastUser, run, key) == Turns(ids, LastIn(lastUser, key), KeyTickets(run, key))
    decreases |run|
  {
    hide NextInTurn, KeyOf, OneRemembered, LastIn;
    if run != [] {
      KeyMoves(staff, lastUser, run[0], key);
      KeyIsolated(staff, OneRemembered(staff, lastUser, run[0]), run[1..], key, ids);
    }
  }

  lemma KeyIsFair(staff: Route -> Roster, lastUser: map<Key, int>, run: seq<Route>, key: Key, ids: Roster)
    requires forall i | 0 <= i < |run| && KeyOf(run[i]) == key :: staff(run[i]) == ids
    ensures Fair(KeyPicks(staff, lastUser, run, key), ids)
  {
    hide Turns, KeyPicks;
    KeyIsolated(staff, lastUser, run, key, ids);
    forall a, b | a in ids && b in ids
      ensures multiset(KeyPicks(staff, lastUser, run, key))[a] <= multiset(KeyPicks(staff, lastUser, run, key))[b] + 1
    {
      TurnsAreFair(ids, LastIn(lastUser, key), KeyTickets(run, key), a, b);
    }
  }

  // ---------------------------------------------------------------- shared turns

  /** Tickets that take two routes by turns. */
  function Alternating(a: Route, b: Route, k: nat): seq<Route> {
    if k == 0 then [] else [a, b] + Alternating(a, b, k - 1)
  }

  function Constant(x: int, k: nat): seq<int> {
    if k == 0 then [] else [x] + Constant(x, k - 1)
  }

  lemma NoTickets(staff: Route -> Roster, lastUser: map<Key, int>, route: Route)
    ensures Picks(staff, lastUser, [], route) == []
  {
  }

  lemma TwoTickets(staff: Route -> Roster, lastUser: map<Key, int>, a: Route, b: Route, run: seq<Route>, route: Route)
    ensures var once := OneRemembered(staff, lastUser, a);
      Picks(staff, lastUser, [a, b] + run, route) ==
        Chosen(staff, lastUser, a, route) + Chosen(staff, once, b, route) +
        Picks(staff, OneRemembered(staff, once, b), run, route)
  {
    hide OneRemembered, Chosen;
    assert ([a, b] + run)[0] == a && ([a, b] + run)[1..] == [b] + run;
    assert ([b] + run)[0] == b && ([b] + run)[1..] == run;
  }

  /** Two routes with one key, where each choice of one leads the other back to the
      same technician, never get anybody else. */
  lemma {:induction false} AlternatingStarves(staff: Route -> Roster, lastUser: map<Key, int>, a: Route, b: Route,
                                              x: int, y: int, k: nat)
    requires Shares(a, b)
    requires NextInTurn(staff(a), LastIn(lastUser, KeyOf(a))) == x
    requires NextInTurn(staff(b), Some(x)) == y && NextInTurn(staff(a), Some(y)) == x
    ensures Picks(staff, lastUser, Alternating(a, b, k), a) == Constant(x, k)
    ensures Picks(staff, lastUser, Alternating(a, b, k), b) == Constant(y, k)
    decreases k
  {
    hide NextInTurn, KeyOf, Picks;
    if 0 < k {
      var twice := OneRemembered(staff, OneRemembered(staff, lastUser, a), b);
      TwoTickets(staff, lastUser, a, b, Alternating(a, b, k - 1), a);
      TwoTickets(staff, lastUser, a, b, Alternating(a, b, k - 1), b);
      AlternatingStarves(staff, twice, a, b, x, y, k - 1);
    } else {
      NoTickets(staff, lastUser, a);
      NoTickets(staff, lastUser, b);
    }
  }

  /** An instance with the same two technicians behind queue 5 and team 5: every ticket
      of the queue goes to the first and every ticket of the team to the second. */
  lemma SharedKeyStarves(staff: Route -> Roster, lastUser: map<Key, int>, team: int, k: nat)
    requires LastIn(lastUser, QueueKey(5)) in {None, Some(2)}
    requires staff(ByQueue(5, team)) == [1, 2] == staff(ByTeam(5))
    ensures Picks(staff, lastUser, Alternating(ByQueue(5, team), ByTeam(5), k), ByQueue(5, team)) == Constant(1, k)
    ensures Picks(staff, lastUser, Alternating(ByQueue(5, team), ByTeam(5), k), ByTeam(5)) == Constant(2, k)
  {
    hide Picks, Alternating;
    TwoTurns(LastIn(lastUser, QueueKey(5)));
    TwoTurns(Some(2));
    AlternatingStarves(staff, lastUser, ByQueue(5, team), ByTeam(5), 1, 2, k);
  }

  /** An instance with two rules that name queue 5, one with team 1 and one with team 2:
      when the teams have nobody in common, each team's tickets all go to its first
      technician, however many it has. */
  lemma TwoTeamsStarve(staff: Route -> Roster, lastUser: map<Key, int>, k: nat)
    requires forall id | id in staff(ByQueue(5, 1)) :: id !in staff(ByQueue(5, 2))
    requires LastIn(lastUser, QueueKey(5)).None?
    ensures var run := Alternating(ByQueue(5, 1), ByQueue(5, 2), k);
      && Picks(staff, lastUser, run, ByQueue(5, 1)) == Constant(staff(ByQueue(5, 1))[0], k)
      && Picks(staff, lastUser, run, ByQueue(5, 2)) == Constant(staff(ByQueue(5, 2))[0], k)
  {
    hide Picks, Alternating;
    var x, y := staff(ByQueue(5, 1))[0], staff(ByQueue(5, 2))[0];
    assert x in staff(ByQueue(5, 1)) && y in staff(ByQueue(5, 2));
    AlternatingStarves(staff, lastUser, ByQueue(5, 1), ByQueue(5, 2), x, y, k);
  }

  lemma TwoTurns(last: Option<int>)
    requires last in {None, Some(2)}
    ensures NextInTurn([1, 2], last) == 1 && NextInTurn([1, 2], Some(1)) == 2
  {
    IndexOfDistinct([1, 2], 0);
    IndexOfDistinct([1, 2], 1);
  }

  // ---------------------------------------------------------------- open tickets

  /** The open-ticket counts after `k` tickets went to the least active. */
  function Assigned(ids: seq<int>, counts: map<int, nat>, k: nat): map<int, nat>
    requires ids != []
    decreases k
  {
    if k == 0 then counts
    else
      var pick := LeastActive(ids, counts);
      Assigned(ids, counts[pick := Load(counts, pick) + 1], k - 1)
  }

  ghost predicate WithinGap(ids: seq<int>, counts: map<int, nat>, gap: nat) {
    forall a, b | a in ids && b in ids :: Load(counts, a) <= Load(counts, b) + gap
  }

  /** The gap between the most and the least loaded technician never exceeds the
      gap at the start, or one. */
  lemma {:induction false} GapStays(ids: seq<int>, counts: map<int, nat>, gap: nat, k: nat)
    requires ids != [] && WithinGap(ids, counts, gap) && 0 < gap
    ensures WithinGap(ids, Assigned(ids, counts, k), gap)
    decreases k
  {
    if 0 < k {
      var pick := LeastActive(ids, counts);
      var counts' := counts[pick := Load(counts, pick) + 1];
      forall a, b | a in ids && b in ids ensures Load(counts', a) <= Load(counts', b) + gap {
        assert Lighter(counts, pick, b);
      }
      GapStays(ids, counts', gap, k - 1);
    }
  }

  /** How many tickets the technicians are short of `top` each. */
  ghost function Deficit(ids: seq<int>, counts: map<int, nat>, top: nat): int {
    if ids == [] then 0 else top - Load(counts, ids[0]) + Deficit(ids[1..], counts, top)
  }

  ghost predicate Top(ids: seq<int>, counts: map<int, nat>, top: nat) {
    && (forall id | id in ids :: Load(counts, id) <= top)
    && exists id :: id in ids && Load(counts, id) == top
  }

  ghost predicate Level(ids: seq<int>, counts: map<int, nat>) {
    forall a, b | a in ids && b in ids :: Load(counts, a) == Load(counts, b)
  }

  lemma {:induction false} DeficitZero(ids: seq<int>, counts: map<int, nat>, top: nat)
    requires forall id | id in ids :: Load(counts, id) <= top
    ensures 0 <= Deficit(ids, counts, top)
    ensures Deficit(ids, counts, top) == 0 <==> forall id | id in ids :: Load(counts, id) == top
  {
    if ids != [] {
      var first := ids[0];
      assert first in ids;
      assert forall id :: id in ids <==> id == first || id in ids[1..];
      DeficitZero(ids[1..], counts, top);
    }
  }

  lemma {:induction false} DeficitStep(ids: seq<int>, counts: map<int, nat>, top: nat, pick: int)
    requires Distinct(ids)
    ensures Deficit(ids, counts[pick := Load(counts, pick) + 1], top) ==
      Deficit(ids, counts, top) - if pick in ids then 1 else 0
  {
    if ids != [] {
      DeficitStep(ids[1..], counts, top, pick);
    }
  }

  /** One ticket for the least active brings a technician below the top one closer
      to it, and leaves the busiest alone. */
  lemma LeastBelowTop(ids: seq<int>, counts: map<int, nat>, top: nat)
    requires ids != [] && Distinct(ids) && Top(ids, counts, top) && 0 < Deficit(ids, counts, top)
    ensures var pick := LeastActive(ids, counts);
      var counts' := counts[pick := Load(counts, pick) + 1];
      Top(ids, counts', top) && Deficit(ids, counts', top) == Deficit(ids, counts, top) - 1
  {
    var pick := LeastActive(ids, counts);
    var counts' := counts[pick := Load(counts, pick) + 1];
    DeficitZero(ids, counts, top);
    DeficitStep(ids, counts, top, pick);
    var busiest :| busiest in ids && Load(counts, busiest) == top;
    var short :| short in ids && Load(counts, short) != top;
    assert Lighter(counts, pick, short);
    assert Load(counts', busiest) == top;
  }

  /** Least-active assignment levels the load: with no closures, it takes exactly
      as many tickets as everyone is short of the highest load until all loads are
      equal, and not one ticket less. */
  lemma {:induction false} LoadsLevelOut(ids: seq<int>, counts: map<int, nat>, top: nat, k: nat)
    requires ids != [] && Distinct(ids) && Top(ids, counts, top)
    requires k <= Deficit(ids, counts, top)
    ensures Level(ids, Assigned(ids, counts, k)) <==> k == Deficit(ids, counts, top)
    decreases k
  {
    hide Deficit, Top, Level, Lighter;
    if 0 < k {
      LeastBelowTop(ids, counts, top);
      var pick := LeastActive(ids, counts);
      LoadsLevelOut(ids, counts[pick := Load(counts, pick) + 1], top, k - 1);
    } else {
      LevelWithoutDeficit(ids, counts, top);
    }
  }

  lemma LevelWithoutDeficit(ids: seq<int>, counts: map<int, nat>, top: nat)
    requires Top(ids, counts, top)
    ensures Level(ids, counts) <==> Deficit(ids, counts, top) == 0
  {
    DeficitZero(ids, counts, top);
    var busiest :| busiest in ids && Load(counts, busiest) == top;
    if Level(ids, counts) {
      assert forall id | id in ids :: Load(counts, id) == Load(counts, busiest);
    }
  }
}
