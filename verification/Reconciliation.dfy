/** Deciding who uses an endpoint: observations are cleaned, matched against the
    employees tier by tier, counted, and assign an unassigned asset in the end. */
module Reconciliation {
  import opened Wrappers
  import opened Text

  type Claims = map<string, string>

  const EMAIL := "email"
  const UPN := "user_principal_name"
  const OBJECT_ID := "directory_object_id"
  const EMPLOYEE_ID := "employee_id"
  const ACCOUNT := "account_name"
  const UNUSABLE: set<string> := {"unknown", "unavailable", "none", "null"}

  function Get(claims: Claims, key: string): string {
    if key in claims then claims[key] else ""
  }

  // ---------------------------------------------------------------- cleaning

  predicate Usable(text: string) {
    Strip(text) != [] && Lower(Strip(text)) !in UNUSABLE
  }

  function BeforeAt(s: string): string {
    if s == [] || s[0] == '@' then [] else [s[0]] + BeforeAt(s[1..])
  }

  /** A directory account of a computer, which never is a person. */
  predicate IsComputer(text: string) {
    var local := Strip(BeforeAt(Strip(text)));
    local != [] && local[|local| - 1] == '$'
  }

  predicate HasIdentity(claims: Claims) {
    exists key :: key in {EMAIL, UPN, OBJECT_ID, EMPLOYEE_ID, ACCOUNT} && Usable(Get(claims, key))
  }

  /** The value kept for a claim. */
  function CleanValue(key: string, text: string): string {
    if key in {EMAIL, UPN} then Lower(Strip(text)) else Strip(text)
  }

  predicate KeepsClaim(key: string, text: string) {
    Usable(text) && !(key in {EMAIL, UPN, ACCOUNT} && IsComputer(CleanValue(key, text)))
  }

  function KeptClaims(claims: Claims): Claims {
    map key | key in claims && KeepsClaim(key, claims[key]) :: CleanValue(key, claims[key])
  }

  /** The usable claims of a person; metadata alone is dropped. */
  function Cleaned(claims: Claims): Claims {
    var kept := KeptClaims(claims);
    if HasIdentity(kept) then kept else map[]
  }

  lemma LowerKeepsSpaces(s: string)
    ensures Trim(s) ==> Trim(Lower(s))
  {
  }

  /** Cleaning a kept value changes nothing more. */
  lemma CleanValueTwice(key: string, text: string)
    requires KeepsClaim(key, text)
    ensures CleanValue(key, CleanValue(key, text)) == CleanValue(key, text)
    ensures KeepsClaim(key, CleanValue(key, text))
  {
    hide IsComputer, BeforeAt, Strip;
    StripIsTrim(text);
    LowerKeepsSpaces(Strip(text));
    LowerTwice(Strip(text));
    TrimStays(Strip(text));
    TrimStays(Lower(Strip(text)));
  }

  lemma KeptTwice(claims: Claims)
    ensures KeptClaims(KeptClaims(claims)) == KeptClaims(claims)
  {
    hide KeepsClaim, CleanValue;
    var kept := KeptClaims(claims);
    forall key | key in kept ensures KeepsClaim(key, kept[key]) && CleanValue(key, kept[key]) == kept[key] {
      CleanValueTwice(key, claims[key]);
    }
  }

  /** Cleaning is idempotent, so claims stored once stay as they are. */
  lemma CleanedTwice(claims: Claims)
    ensures Cleaned(Cleaned(claims)) == Cleaned(claims)
  {
    hide KeepsClaim, CleanValue, HasIdentity;
    KeptTwice(claims);
    assert KeptClaims(map[]) == map[];
  }

  // ---------------------------------------------------------------- matching

  datatype Employee = Employee(id: int, workEmail: string, alternateEmails: seq<string>, objectId: string,
                               number: string, account: string)

  datatype Tier = ByEmail | ByObjectId | ByEmployeeId | ByAccount

  datatype Match = Match(employee: Option<int>, tier: Option<Tier>, count: nat)

  function Plain(text: string): string { Lower(Strip(text)) }

  /** The tiers, strongest first. */
  function Tiers(allowAccount: bool): seq<Tier> {
    [ByEmail, ByObjectId, ByEmployeeId] + if allowAccount then [ByAccount] else []
  }

  /** The employee matches the claims in a tier; an empty claim matches nobody. */
  predicate Matches(e: Employee, claims: Claims, tier: Tier) {
    match tier
    case ByEmail =>
      var values := {Plain(Get(claims, EMAIL)), Plain(Get(claims, UPN))} - {""};
      Plain(e.workEmail) in values || exists alias | alias in e.alternateEmails :: Plain(alias) in values
    case ByObjectId => Plain(Get(claims, OBJECT_ID)) != "" && Plain(e.objectId) == Plain(Get(claims, OBJECT_ID))
    case ByEmployeeId => Plain(Get(claims, EMPLOYEE_ID)) != "" && Plain(e.number) == Plain(Get(claims, EMPLOYEE_ID))
    case ByAccount => Plain(Get(claims, ACCOUNT)) != "" && Plain(e.account) == Plain(Get(claims, ACCOUNT))
  }

  function MatchingIds(employees: seq<Employee>, claims: Claims, tier: Tier): set<int> {
    set e | e in employees && Matches(e, claims, tier) :: e.id
  }

  ghost function AnyOf<T>(s: set<T>): (x: T)
    requires s != {}
    ensures x in s
  {
    var x :| x in s;
    x
  }

  /** What a tier that matches someone decides: the one employee, or ambiguity. */
  ghost function TierMatch(ids: set<int>, tier: Tier): (m: Match)
    requires ids != {}
    ensures m.tier == Some(tier) && m.count == |ids|
    ensures m.employee.Some? <==> |ids| == 1
    ensures m.employee.Some? ==> ids == {m.employee.value}
  {
    if |ids| == 1 then
      var id := AnyOf(ids);
      assert |ids - {id}| == 0;
      Match(Some(id), Some(tier), 1)
    else Match(None, Some(tier), |ids|)
  }

  /** The strongest tier that matches anyone decides alone. */
  ghost function Candidates(employees: seq<Employee>, claims: Claims, tiers: seq<Tier>): (m: Match)
    ensures m.employee.Some? <==> m.count == 1
  {
    if tiers == [] then Match(None, None, 0)
    else
      var ids := MatchingIds(employees, claims, tiers[0]);
      if ids != {} then TierMatch(ids, tiers[0]) else Candidates(employees, claims, tiers[1..])
  }

  /** Tier `k` matches only the employee, and no stronger tier matches anyone. */
  ghost predicate DecidesFor(employees: seq<Employee>, claims: Claims, tiers: seq<Tier>, k: nat, id: int) {
    && k < |tiers| && MatchingIds(employees, claims, tiers[k]) == {id}
    && forall j | 0 <= j < k :: MatchingIds(employees, claims, tiers[j]) == {}
  }

  /** With nobody in the first tier the later tiers decide. */
  lemma FirstTierEmpty(employees: seq<Employee>, claims: Claims, tiers: seq<Tier>, k: nat, id: int)
    requires tiers != [] && MatchingIds(employees, claims, tiers[0]) == {}
    ensures !DecidesFor(employees, claims, tiers, 0, id)
    ensures DecidesFor(employees, claims, tiers, k + 1, id) <==> DecidesFor(employees, claims, tiers[1..], k, id)
  {
    hide MatchingIds;
    var rest := tiers[1..];
    assert forall j | 0 <= j < |rest| :: rest[j] == tiers[j + 1];
    if DecidesFor(employees, claims, rest, k, id) {
      forall j | 0 <= j < k + 1 ensures MatchingIds(employees, claims, tiers[j]) == {} {
        assert 0 < j ==> tiers[j] == rest[j - 1];
      }
    }
  }

  /** An employee is proposed exactly when one tier matches only that employee and
      no stronger tier matches anyone. */
  lemma {:induction false} ProposedExactly(employees: seq<Employee>, claims: Claims, tiers: seq<Tier>, id: int)
    ensures Candidates(employees, claims, tiers).employee == Some(id) <==>
      exists k: nat :: DecidesFor(employees, claims, tiers, k, id)
  {
    hide MatchingIds, TierMatch;
    if tiers != [] {
      if MatchingIds(employees, claims, tiers[0]) == {} {
        ProposedExactly(employees, claims, tiers[1..], id);
        forall k: nat
          ensures DecidesFor(employees, claims, tiers, k + 1, id) <==> DecidesFor(employees, claims, tiers[1..], k, id)
          ensures !DecidesFor(employees, claims, tiers, 0, id)
        {
          FirstTierEmpty(employees, claims, tiers, k, id);
        }
        if k: nat :| DecidesFor(employees, claims, tiers, k, id) {
          assert DecidesFor(employees, claims, tiers[1..], k - 1, id);
        }
      } else {
        FirstTierDecides(employees, claims, tiers, id);
      }
    }
  }

  lemma FirstTierDecides(employees: seq<Employee>, claims: Claims, tiers: seq<Tier>, id: int)
    requires tiers != [] && MatchingIds(employees, claims, tiers[0]) != {}
    ensures TierMatch(MatchingIds(employees, claims, tiers[0]), tiers[0]).employee == Some(id) <==>
      DecidesFor(employees, claims, tiers, 0, id)
    ensures forall k: nat | 0 < k :: !DecidesFor(employees, claims, tiers, k, id)
  {
    hide MatchingIds;
    var ids := MatchingIds(employees, claims, tiers[0]);
    var m := TierMatch(ids, tiers[0]);
    if ids == {id} {
      assert m.employee.value in {id};
    }
  }

  method Pick<T(==)>(s: set<T>) returns (x: T)
    requires s != {}
    ensures x in s
  {
    x :| x in s;
  }

  method IdentityCandidates(employees: seq<Employee>, claims: Claims, allowAccount: bool) returns (m: Match)
    ensures m == Candidates(employees, claims, Tiers(allowAccount))
  {
    var tiers := Tiers(allowAccount);
    for k := 0 to |tiers|
      invariant Candidates(employees, claims, tiers) == Candidates(employees, claims, tiers[k..])
    {
      assert tiers[k..][0] == tiers[k] && tiers[k..][1..] == tiers[k + 1..];
      var ids := MatchingIds(employees, claims, tiers[k]);
      if ids != {} {
        ghost var decided := TierMatch(ids, tiers[k]);
        if |ids| == 1 {
          var id := Pick(ids);
          assert id in {decided.employee.value};
          return Match(Some(id), Some(tiers[k]), 1);
        }
        return Match(None, Some(tiers[k]), |ids|);
      }
    }
    m := Match(None, None, 0);
  }

  // ---------------------------------------------------------------- one observation

  datatype AssignmentState =
    | NoObservation | AmbiguousIdentity | NeedsReview | SharedDevice | Confirmed | Conflict | AutomaticallyAssigned
    | PendingConfirmation

  datatype AgentView = AgentView(observed: Claims, email: Option<string>, observations: nat, tier: Option<Tier>,
                                 matched: Option<int>, state: AssignmentState)

  datatype AssetView = AssetView(assignee: Option<int>, discovered: bool, shared: bool)

  /** What an inventory upload reports about the interactive user. */
  datatype Observation = Observation(email: string, claims: Claims)

  datatype Settings = Settings(employees: seq<Employee>, allowAccount: bool, threshold: int)

  function RawClaims(o: Observation): Claims {
    if o.email != "" && Get(o.claims, EMAIL) == "" then o.claims[EMAIL := o.email] else o.claims
  }

  /** The claims an observation counts for: a computer account, or any identity
      that cleaning rejects, leaves the previous person in place. */
  function EffectiveClaims(previous: Claims, o: Observation): Claims {
    var raw := RawClaims(o);
    var person := Cleaned(previous);
    if HasIdentity(raw) && !HasIdentity(Cleaned(raw)) && HasIdentity(person) then person else Cleaned(raw)
  }

  function EmailOf(claims: Claims): string {
    Plain(if Get(claims, EMAIL) != "" then Get(claims, EMAIL) else Get(claims, UPN))
  }

  /** The identity an observation is compared by; empty when there is none. */
  function IdentityKey(claims: Claims): string {
    if EmailOf(claims) != "" then EmailOf(claims)
    else if Plain(Get(claims, OBJECT_ID)) != "" then Plain(Get(claims, OBJECT_ID))
    else if Plain(Get(claims, EMPLOYEE_ID)) != "" then Plain(Get(claims, EMPLOYEE_ID))
    else Plain(Get(claims, ACCOUNT))
  }

  function Threshold(s: Settings): nat { if s.threshold < 1 then 1 else s.threshold }

  function Observations(previous: nat, key: string, oldKey: string): nat {
    if key == "" then 0 else if key == oldKey then previous + 1 else 1
  }

  function StateFor(claims: Claims, m: Match, asset: AssetView, observations: nat, s: Settings): AssignmentState {
    if claims == map[] then NoObservation
    else if 1 < m.count then AmbiguousIdentity
    else if m.employee.None? then NeedsReview
    else if asset.shared then SharedDevice
    else if asset.assignee == m.employee then Confirmed
    else if asset.assignee.Some? then Conflict
    else if Threshold(s) <= observations then AutomaticallyAssigned
    else PendingConfirmation
  }

  function Settled(asset: AssetView, state: AssignmentState, m: Match): AssetView {
    if state == AutomaticallyAssigned then asset.(assignee := m.employee, discovered := false) else asset
  }

  /** The agent and the asset after an observation. */
  ghost function Reconciled(agent: AgentView, asset: AssetView, o: Observation, s: Settings): (AgentView, AssetView) {
    var claims := EffectiveClaims(agent.observed, o);
    var count := Observations(agent.observations, IdentityKey(claims), IdentityKey(Cleaned(agent.observed)));
    var m := Candidates(s.employees, claims, Tiers(s.allowAccount));
    var state := StateFor(claims, m, asset, count, s);
    (AgentView(claims, if EmailOf(claims) == "" then None else Some(EmailOf(claims)), count, m.tier, m.employee, state),
     Settled(asset, state, m))
  }

  class Asset {
    var assignedEmployee: Option<int>
    var discovered: bool
    const shared: bool

    constructor (discovered: bool, shared: bool)
      ensures View() == AssetView(None, discovered, shared)
    {
      assignedEmployee, this.discovered, this.shared := None, discovered, shared;
    }

    function View(): AssetView
      reads this
    {
      AssetView(assignedEmployee, discovered, shared)
    }
  }

  class Agent {
    var observedUser: Claims
    var observedEmail: Option<string>
    var consecutiveObservations: nat
    var matchTier: Option<Tier>
    var matchedEmployee: Option<int>
    var assignmentState: AssignmentState

    constructor ()
      ensures View() == AgentView(map[], None, 0, None, None, NoObservation)
    {
      observedUser, observedEmail, consecutiveObservations := map[], None, 0;
      matchTier, matchedEmployee, assignmentState := None, None, NoObservation;
    }

    function View(): AgentView
      reads this
    {
      AgentView(observedUser, observedEmail, consecutiveObservations, matchTier, matchedEmployee, assignmentState)
    }

    method ReconcileUser(asset: Asset, o: Observation, s: Settings)
      modifies this, asset
      ensures (View(), asset.View()) == Reconciled(old(View()), old(asset.View()), o, s)
    {
      hide Cleaned, HasIdentity, EmailOf, IdentityKey, Candidates, RawClaims, Tiers, StateFor, Settled;
      var raw, person := RawClaims(o), Cleaned(observedUser);
      var claims := Cleaned(raw);
      if HasIdentity(raw) && !HasIdentity(claims) && HasIdentity(person) {
        claims := person;
      }
      var email, key, oldKey := EmailOf(claims), IdentityKey(claims), IdentityKey(person);
      observedEmail := if email == "" then None else Some(email);
      observedUser := claims;
      consecutiveObservations :=
        if key != "" && key == oldKey then consecutiveObservations + 1 else if key != "" then 1 else 0;
      var m := IdentityCandidates(s.employees, claims, s.allowAccount);
      matchTier, matchedEmployee := m.tier, m.employee;
      assignmentState := SettleAssignment(asset, claims, m, consecutiveObservations, s);
    }
  }

  /** Decides the assignment state, and assigns the asset when it is time. */
  method SettleAssignment(asset: Asset, claims: Claims, m: Match, observations: nat, s: Settings)
    returns (state: AssignmentState)
    modifies asset
    ensures state == StateFor(claims, m, old(asset.View()), observations, s)
    ensures asset.View() == Settled(old(asset.View()), state, m)
  {
    if claims == map[] {
      state := NoObservation;
    } else if 1 < m.count {
      state := AmbiguousIdentity;
    } else if m.employee.None? {
      state := NeedsReview;
    } else if asset.shared {
      state := SharedDevice;
    } else if asset.assignedEmployee == m.employee {
      state := Confirmed;
    } else if asset.assignedEmployee.Some? {
      state := Conflict;
    } else if Threshold(s) <= observations {
      asset.assignedEmployee := m.employee;
      asset.discovered := false;
      state := AutomaticallyAssigned;
    } else {
      state := PendingConfirmation;
    }
  }

  // ---------------------------------------------------------------- runs

  datatype Upload = Upload(o: Observation, s: Settings)

  /** Agent and asset after a run of inventory uploads to a new agent. */
  ghost function After(asset: AssetView, run: seq<Upload>): (AgentView, AssetView)
    decreases |run|
  {
    if run == [] then (AgentView(map[], None, 0, None, None, NoObservation), asset)
    else
      var (agent, before) := After(asset, run[..|run| - 1]);
      Reconciled(agent, before, run[|run| - 1].o, run[|run| - 1].s)
  }

  /** The effective identity keys of a run, one per upload. */
  ghost function Keys(run: seq<Upload>): (r: seq<string>)
    ensures |r| == |run|
    decreases |run|
  {
    if run == [] then []
    else Keys(run[..|run| - 1]) + [IdentityKey(EffectiveAfter(run))]
  }

  /** The claims the last upload of a run counts for. */
  ghost function EffectiveAfter(run: seq<Upload>): Claims
    decreases |run|
  {
    if run == [] then map[] else EffectiveClaims(EffectiveAfter(run[..|run| - 1]), run[|run| - 1].o)
  }

  /** `n` is the length of the longest suffix of equal non-empty keys. */
  ghost predicate IsStreak(keys: seq<string>, n: nat) {
    if keys == [] || keys[|keys| - 1] == "" then n == 0
    else
      var last := |keys| - 1;
      && 0 < n <= |keys|
      && (forall i | |keys| - n <= i < |keys| :: keys[i] == keys[last])
      && (n < |keys| ==> keys[last - n] != keys[last])
  }

  /** Stored claims are clean, so reading them back changes nothing. */
  lemma {:induction false} StoredClaims(asset: AssetView, run: seq<Upload>)
    ensures After(asset, run).0.observed == EffectiveAfter(run)
    ensures Cleaned(EffectiveAfter(run)) == EffectiveAfter(run)
    decreases |run|
  {
    hide Cleaned, HasIdentity, EmailOf, IdentityKey, Candidates, RawClaims, Tiers, StateFor, Settled;
    if run == [] {
      NothingToClean();
    } else {
      StoredClaims(asset, run[..|run| - 1]);
      CleanedTwice(EffectiveAfter(run[..|run| - 1]));
      CleanedTwice(RawClaims(run[|run| - 1].o));
    }
  }

  lemma NothingToClean()
    ensures Cleaned(map[]) == map[]
  {
    assert KeptClaims(map[]) == map[];
  }

  lemma NoKey()
    ensures IdentityKey(map[]) == ""
  {
    assert Strip("") == "";
  }

  /** The counter is the length of the longest suffix of uploads with the same
      non-empty identity. */
  lemma {:induction false} CounterIsStreak(asset: AssetView, run: seq<Upload>)
    ensures IsStreak(Keys(run), After(asset, run).0.observations)
    decreases |run|
  {
    hide Cleaned, HasIdentity, EmailOf, IdentityKey, Candidates, RawClaims, Tiers, StateFor, Settled, EffectiveClaims;
    if run != [] {
      var before := run[..|run| - 1];
      CounterIsStreak(asset, before);
      StoredClaims(asset, before);
      NoKey();
      StreakGrows(Keys(before), After(asset, before).0.observations, IdentityKey(EffectiveAfter(run)),
                  IdentityKey(EffectiveAfter(before)));
    }
  }

  lemma StreakGrows(keys: seq<string>, n: nat, key: string, oldKey: string)
    requires IsStreak(keys, n)
    requires if keys == [] then oldKey == "" else oldKey == keys[|keys| - 1]
    ensures IsStreak(keys + [key], Observations(n, key, oldKey))
  {
  }

  /** A streak reaches a length exactly when that many last keys are the same. */
  lemma StreakReaches(keys: seq<string>, n: nat, t: nat)
    requires IsStreak(keys, n) && keys != [] && 0 < t
    ensures t <= n <==> SameKeys(keys, t)
  {
    if n < t <= |keys| {
      var before, last := keys[|keys| - 1 - n], keys[|keys| - 1];
      assert SameKeys(keys, t) ==> before == last;
    }
  }

  /** The last `t` keys are there, not empty, and the same. */
  ghost predicate SameKeys(keys: seq<string>, t: nat) {
    && 0 < t <= |keys| && keys[|keys| - 1] != ""
    && forall i | |keys| - t <= i < |keys| :: keys[i] == keys[|keys| - 1]
  }

  lemma PlainUsable(text: string)
    requires Usable(text)
    ensures Plain(text) != ""
  {
    assert |Lower(Strip(text))| == |Strip(text)|;
  }

  lemma NothingUsable()
    ensures !Usable("")
  {
    assert Strip("") == "";
  }

  /** Every person has a key to be compared by. */
  lemma PersonHasKey(claims: Claims)
    requires HasIdentity(Cleaned(claims))
    ensures IdentityKey(Cleaned(claims)) != ""
  {
    hide Usable, Plain, CleanValue;
    var person := Cleaned(claims);
    NothingUsable();
    KeptTwice(claims);
    forall key | key in person ensures Usable(person[key]) && Plain(person[key]) != "" {
      assert KeepsClaim(key, KeptClaims(KeptClaims(claims))[key]);
      PlainUsable(person[key]);
    }
  }

  /** The upload names somebody, but nobody that may be a person: the previous person
      is kept in its place. */
  predicate KeepsPrevious(o: Observation) {
    HasIdentity(RawClaims(o)) && !HasIdentity(Cleaned(RawClaims(o)))
  }

  /** An upload that only names a computer account counts as one more observation of
      the person seen before. */
  lemma ComputerCountsForPerson(agent: AgentView, asset: AssetView, o: Observation, s: Settings)
    requires KeepsPrevious(o) && HasIdentity(Cleaned(agent.observed))
    ensures var after := Reconciled(agent, asset, o, s).0;
      after.observed == Cleaned(agent.observed) && after.observations == agent.observations + 1
  {
    hide Cleaned, HasIdentity, EmailOf, IdentityKey, Candidates, RawClaims, Tiers, StateFor, Settled;
    PersonHasKey(agent.observed);
  }

  lemma AssignedStays(agent: AgentView, asset: AssetView, o: Observation, s: Settings)
    ensures Reconciled(agent, asset, o, s).1.shared == asset.shared
    ensures asset.assignee.Some? ==> Reconciled(agent, asset, o, s).1.assignee == asset.assignee
  {
    hide Cleaned, HasIdentity, EmailOf, IdentityKey, Candidates, RawClaims, Tiers, EffectiveClaims;
  }

  /** An assigned employee is never changed. */
  lemma {:induction false} AssignedForever(asset: AssetView, run: seq<Upload>, k: nat)
    requires k <= |run| && After(asset, run[..k]).1.assignee.Some?
    ensures After(asset, run).1.assignee == After(asset, run[..k]).1.assignee
    decreases |run|
  {
    hide Reconciled;
    if k < |run| {
      var before := run[..|run| - 1];
      assert before[..k] == run[..k];
      AssignedForever(asset, before, k);
      AssignedStays(After(asset, before).0, After(asset, before).1, run[|run| - 1].o, run[|run| - 1].s);
    } else {
      assert run[..k] == run;
    }
  }

  lemma {:induction false} SharedForever(asset: AssetView, run: seq<Upload>)
    ensures After(asset, run).1.shared == asset.shared
    decreases |run|
  {
    hide Reconciled;
    if run != [] {
      var before := run[..|run| - 1];
      SharedForever(asset, before);
      AssignedStays(After(asset, before).0, After(asset, before).1, run[|run| - 1].o, run[|run| - 1].s);
    }
  }

  lemma AssignsWhen(agent: AgentView, asset: AssetView, o: Observation, s: Settings, id: int)
    requires asset.assignee.None?
    ensures var (after, owned) := Reconciled(agent, asset, o, s);
      owned.assignee == Some(id) <==>
        && !asset.shared && after.observed != map[] && Threshold(s) <= after.observations
        && Candidates(s.employees, after.observed, Tiers(s.allowAccount)).employee == Some(id)
  {
    hide Cleaned, HasIdentity, EmailOf, IdentityKey, Candidates, RawClaims, Tiers, EffectiveClaims;
  }

  /** After the run one tier matches only the employee and no stronger tier anyone. */
  ghost predicate Decided(run: seq<Upload>, s: Settings, id: int) {
    exists k: nat :: DecidesFor(s.employees, EffectiveAfter(run), Tiers(s.allowAccount), k, id)
  }

  /** A tier decides for the employee, and as many uploads in a row as the threshold
      asks for had the same effective identity. */
  ghost predicate AssignmentDue(run: seq<Upload>, s: Settings, id: int) {
    Decided(run, s, id) && SameKeys(Keys(run), Threshold(s))
  }

  /** Who holds the asset after a run. */
  ghost function Holder(asset: AssetView, run: seq<Upload>): Option<int> {
    After(asset, run).1.assignee
  }

  /** The last upload of a run assigns an unassigned asset to an employee exactly when
      the asset is not shared and the assignment is due. */
  lemma AssignedExactly(asset: AssetView, before: seq<Upload>, last: Upload, id: int)
    requires Holder(asset, before).None?
    ensures Holder(asset, before + [last]) == Some(id) <==>
      !asset.shared && AssignmentDue(before + [last], last.s, id)
  {
    hide Reconciled, Candidates, DecidesFor, SameKeys, IsStreak, Tiers, After, Keys, EffectiveAfter;
    var run := before + [last];
    SharedForever(asset, before);
    AfterLast(asset, before, last);
    AssignsWhen(After(asset, before).0, After(asset, before).1, last.o, last.s, id);
    StoredClaims(asset, run);
    CounterIsStreak(asset, run);
    StreakReaches(Keys(run), After(asset, run).0.observations, Threshold(last.s));
    ProposedExactly(last.s.employees, EffectiveAfter(run), Tiers(last.s.allowAccount), id);
    if SameKeys(Keys(run), Threshold(last.s)) {
      KeyedClaims(run, Threshold(last.s));
    }
  }

  lemma AfterLast(asset: AssetView, before: seq<Upload>, last: Upload)
    ensures var (agent, owned) := After(asset, before);
      After(asset, before + [last]) == Reconciled(agent, owned, last.o, last.s)
  {
    assert (before + [last])[..|before|] == before;
  }

  lemma KeyedClaims(run: seq<Upload>, t: nat)
    requires run != [] && SameKeys(Keys(run), t)
    ensures EffectiveAfter(run) != map[]
  {
    hide IdentityKey, EffectiveAfter;
    NoKey();
    assert Keys(run)[|run| - 1] == IdentityKey(EffectiveAfter(run));
  }

  // ---------------------------------------------------------------- sightings

  /** The identity that the upload itself shows. */
  function OwnKey(o: Observation): string { IdentityKey(Cleaned(RawClaims(o))) }

  /** Only a person has a key, and a person is taken as it is. */
  lemma OwnClaims(previous: Claims, o: Observation)
    ensures OwnKey(o) != "" <==> HasIdentity(Cleaned(RawClaims(o)))
    ensures KeepsPrevious(o) ==> OwnKey(o) == ""
    ensures !KeepsPrevious(o) ==> EffectiveClaims(previous, o) == Cleaned(RawClaims(o))
  {
    hide HasIdentity, IdentityKey, RawClaims, KeptClaims;
    NoKey();
    if HasIdentity(Cleaned(RawClaims(o))) {
      PersonHasKey(RawClaims(o));
    }
  }

  lemma {:induction false} KeysAt(run: seq<Upload>, i: nat)
    requires i < |run|
    ensures Keys(run)[i] == IdentityKey(EffectiveAfter(run[..i + 1]))
    decreases |run|
  {
    hide IdentityKey, EffectiveAfter;
    if i < |run| - 1 {
      assert run[..|run| - 1][..i + 1] == run[..i + 1];
      KeysAt(run[..|run| - 1], i);
    } else {
      assert run[..i + 1] == run;
    }
  }

  /** An upload that keeps nobody counts for what it shows itself. */
  lemma OwnKeyAt(run: seq<Upload>, i: nat)
    requires i < |run|
    ensures !KeepsPrevious(run[i].o) ==> Keys(run)[i] == OwnKey(run[i].o)
    ensures KeepsPrevious(run[i].o) ==> OwnKey(run[i].o) == ""
  {
    hide IdentityKey, EffectiveClaims, KeepsPrevious, RawClaims, Cleaned;
    KeysAt(run, i);
    assert run[..i + 1][..i] == run[..i];
    OwnClaims(EffectiveAfter(run[..i]), run[i].o);
  }

  /** The last `t` uploads each show the same person themselves. */
  ghost predicate Sighted(run: seq<Upload>, t: nat) {
    && 0 < t <= |run| && OwnKey(run[|run| - 1].o) != ""
    && forall i | |run| - t <= i < |run| :: OwnKey(run[i].o) == OwnKey(run[|run| - 1].o)
  }

  /** None of the last `t` uploads only keeps the previous person. */
  ghost predicate AllShown(run: seq<Upload>, t: nat) {
    forall i | 0 <= i < |run| && |run| - t <= i :: !KeepsPrevious(run[i].o)
  }

  /** A streak of effective identities is a streak of sightings exactly when none of
      its uploads only keeps the previous person. */
  lemma SightedExactly(run: seq<Upload>, t: nat)
    requires 0 < t
    ensures Sighted(run, t) <==> SameKeys(Keys(run), t) && AllShown(run, t)
  {
    hide Keys, OwnKey, KeepsPrevious;
    forall i | 0 <= i < |run|
      ensures !KeepsPrevious(run[i].o) ==> Keys(run)[i] == OwnKey(run[i].o)
      ensures KeepsPrevious(run[i].o) ==> OwnKey(run[i].o) == ""
    {
      OwnKeyAt(run, i);
    }
  }

  /** The last upload assigns an unassigned asset without relying on kept sightings
      exactly when the asset is not shared, one tier matches only the employee and no
      stronger tier anyone, and the last uploads, as many as the threshold, each show
      the same person themselves. */
  lemma AssignedOnSightings(asset: AssetView, before: seq<Upload>, last: Upload, id: int)
    requires Holder(asset, before).None?
    ensures var run, t := before + [last], Threshold(last.s);
      Holder(asset, run) == Some(id) && AllShown(run, t) <==>
        !asset.shared && Decided(run, last.s, id) && Sighted(run, t)
  {
    hide Holder, Keys, Decided, Sighted, AllShown, SameKeys;
    AssignedExactly(asset, before, last, id);
    SightedExactly(before + [last], Threshold(last.s));
  }

  /** One sighting of a person and any number of uploads that only keep it count as so
      many observations of the person. */
  lemma {:induction false} KeptCounts(asset: AssetView, first: Upload, kept: seq<Upload>)
    requires HasIdentity(Cleaned(RawClaims(first.o)))
    requires forall i | 0 <= i < |kept| :: KeepsPrevious(kept[i].o)
    ensures var agent := After(asset, [first] + kept).0;
      agent.observed == Cleaned(RawClaims(first.o)) && agent.observations == |kept| + 1
    decreases |kept|
  {
    hide Cleaned, HasIdentity, EmailOf, IdentityKey, Candidates, RawClaims, Tiers, StateFor, Settled, EffectiveClaims;
    hide After;
    if kept == [] {
      AfterLast(asset, [], first);
      assert [] + [first] == [first] + kept;
      FirstSighting(asset, first);
    } else {
      var n := |kept| - 1;
      KeptCounts(asset, first, kept[..n]);
      assert ([first] + kept[..n]) + [kept[n]] == [first] + kept;
      AfterLast(asset, [first] + kept[..n], kept[n]);
      CleanedTwice(RawClaims(first.o));
      var (agent, owned) := After(asset, [first] + kept[..n]);
      ComputerCountsForPerson(agent, owned, kept[n].o, kept[n].s);
    }
  }

  lemma FirstSighting(asset: AssetView, first: Upload)
    requires HasIdentity(Cleaned(RawClaims(first.o)))
    ensures var (agent, owned) := After(asset, []);
      var after := Reconciled(agent, owned, first.o, first.s).0;
      after.observed == Cleaned(RawClaims(first.o)) && after.observations == 1
  {
    hide Cleaned, HasIdentity, EmailOf, IdentityKey, Candidates, RawClaims, Tiers, StateFor, Settled;
    NothingToClean();
    NoKey();
    PersonHasKey(RawClaims(first.o));
  }

  /** A new agent sees the person once and then only its computer account: with the
      threshold at two, the asset that nobody held is assigned to the person. */
  lemma OneSightingAssigns(asset: AssetView, first: Upload, second: Upload, id: int)
    requires asset.assignee.None? && !asset.shared
    requires first.s.threshold == 2 && second.s.threshold == 2
    requires HasIdentity(Cleaned(RawClaims(first.o))) && KeepsPrevious(second.o)
    requires var m := Candidates(second.s.employees, Cleaned(RawClaims(first.o)), Tiers(second.s.allowAccount));
      m.employee == Some(id)
    ensures Holder(asset, [first]).None? && Holder(asset, [first, second]) == Some(id)
  {
    hide Cleaned, HasIdentity, Candidates, RawClaims, Tiers, KeepsPrevious, After, Reconciled;
    KeptCounts(asset, first, []);
    KeptCounts(asset, first, [second]);
    assert [] + [first] == [first] == [first] + [];
    assert [first] + [second] == [first, second];
    AfterLast(asset, [], first);
    AfterLast(asset, [first], second);
    NotYet(asset, first);
    var (agent, owned) := After(asset, [first]);
    SharedForever(asset, [first]);
    AssignsWhen(agent, owned, second.o, second.s, id);
    NobodyIsNoPerson();
  }

  lemma NobodyIsNoPerson()
    ensures !HasIdentity(map[])
  {
    NothingUsable();
  }

  lemma NotYet(asset: AssetView, first: Upload)
    requires asset.assignee.None? && first.s.threshold == 2 && After(asset, [first]).0.observations == 1
    ensures Holder(asset, [first]).None?
  {
    hide EffectiveClaims, Candidates, Tiers, IdentityKey, Observations, EmailOf;
    AfterLast(asset, [], first);
    assert [] + [first] == [first];
  }

  lemma NameOfComputer(s: string)
    requires s != [] && s[|s| - 1] == '$'
    ensures s !in UNUSABLE
  {
  }

  /** A computer account has a dollar sign at its end. */
  lemma ComputerAccount(name: string)
    requires forall i | 0 <= i < |name| :: name[i] != '@' && !IsSpace(name[i])
    ensures Usable(name + "$") && IsComputer(name + "$") && Trim(name + "$")
  {
    hide Strip, BeforeAt, UNUSABLE, Lower;
    var text := name + "$";
    TrimStays(text);
    NoAt(text);
    LowerLast(text);
    NameOfComputer(Lower(text));
  }

  lemma LowerLast(s: string)
    requires s != [] && s[|s| - 1] == '$'
    ensures Lower(s) != [] && Lower(s)[|Lower(s)| - 1] == '$'
  {
  }

  lemma {:induction false} NoAt(s: string)
    requires forall i | 0 <= i < |s| :: s[i] != '@'
    ensures BeforeAt(s) == s
  {
    if s != [] {
      NoAt(s[1..]);
    }
  }

  /** Claims that hold a single usable identity. */
  lemma OneIdentity(key: string, text: string)
    requires key in {EMAIL, UPN, OBJECT_ID, EMPLOYEE_ID, ACCOUNT} && Usable(text)
    ensures HasIdentity(map[key := text])
  {
    hide Usable;
    assert Get(map[key := text], key) == text;
  }

  lemma KeptOne(key: string, text: string)
    ensures KeptClaims(map[key := text]) == if KeepsClaim(key, text) then map[key := CleanValue(key, text)] else map[]
  {
    hide KeepsClaim, CleanValue;
  }

  lemma OtherKey(key: string)
    requires key in {EMPLOYEE_ID, ACCOUNT}
    ensures key !in {EMAIL, UPN}
  {
  }

  lemma ComputerIsNobody(name: string)
    requires forall i | 0 <= i < |name| :: name[i] != '@' && !IsSpace(name[i])
    ensures KeepsPrevious(Observation("", map[ACCOUNT := name + "$"]))
  {
    hide Usable, IsComputer, KeptClaims, HasIdentity, Strip;
    ComputerAccount(name);
    TrimStays(name + "$");
    OneIdentity(ACCOUNT, name + "$");
    OtherKey(ACCOUNT);
    KeptOne(ACCOUNT, name + "$");
    NobodyIsNoPerson();
  }

  /** A person is seen by the employee number. */
  lemma SeenByNumber(number: string)
    requires Usable(number) && Trim(number)
    ensures Cleaned(RawClaims(Observation("", map[EMPLOYEE_ID := number]))) == map[EMPLOYEE_ID := number]
    ensures HasIdentity(map[EMPLOYEE_ID := number])
  {
    hide Usable, IsComputer, KeptClaims, HasIdentity, Strip;
    TrimStays(number);
    OneIdentity(EMPLOYEE_ID, number);
    KeptOne(EMPLOYEE_ID, number);
    OtherKey(EMPLOYEE_ID);
    NumberIsNoAccount();
  }

  lemma NumberIsNoAccount()
    ensures EMPLOYEE_ID != ACCOUNT
  {
  }

  /** A claim of an employee number is none of the stronger tiers. */
  lemma OnlyNumber(number: string)
    ensures var claims: Claims := map[EMPLOYEE_ID := number];
      Get(claims, EMAIL) == Get(claims, UPN) == Get(claims, OBJECT_ID) == "" && Get(claims, EMPLOYEE_ID) == number
  {
  }

  lemma MatchedByNumber(e: Employee)
    requires Usable(e.number)
    ensures Candidates([e], map[EMPLOYEE_ID := e.number], Tiers(false)).employee == Some(e.id)
  {
    hide Plain, Get, Candidates, Usable;
    var claims: Claims := map[EMPLOYEE_ID := e.number];
    OnlyNumber(e.number);
    PlainUsable(e.number);
    NothingPlain();
    assert MatchingIds([e], claims, ByEmail) == {} == MatchingIds([e], claims, ByObjectId);
    assert e in [e] && MatchingIds([e], claims, ByEmployeeId) == {e.id};
    assert DecidesFor([e], claims, Tiers(false), 2, e.id);
    ProposedExactly([e], claims, Tiers(false), e.id);
  }

  lemma NothingPlain()
    ensures Plain("") == ""
  {
    assert Strip("") == "";
  }

  /** Every employee whose number can be read off a computer once gets the computer: a
      second upload that only shows the computer's own account is enough. */
  lemma ComputerWitness(e: Employee, name: string, discovered: bool)
    requires Usable(e.number) && Trim(e.number)
    requires forall i | 0 <= i < |name| :: name[i] != '@' && !IsSpace(name[i])
    ensures var s := Settings([e], false, 2);
      var seen := Upload(Observation("", map[EMPLOYEE_ID := e.number]), s);
      var computer := Upload(Observation("", map[ACCOUNT := name + "$"]), s);
      Holder(AssetView(None, discovered, false), [seen, computer]) == Some(e.id)
  {
    hide HasIdentity, Cleaned, RawClaims, Candidates, Tiers, Usable, Holder;
    var s := Settings([e], false, 2);
    var seen := Upload(Observation("", map[EMPLOYEE_ID := e.number]), s);
    var computer := Upload(Observation("", map[ACCOUNT := name + "$"]), s);
    SeenByNumber(e.number);
    MatchedByNumber(e);
    ComputerIsNobody(name);
    OneSightingAssigns(AssetView(None, discovered, false), seen, computer, e.id);
  }
}
