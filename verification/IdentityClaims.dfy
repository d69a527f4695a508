/** What an upload has to say for an employee to be proposed and to get the asset: which
    claims count, which identity they show, whom they name and what follows. */
module IdentityClaims {
  import opened Wrappers
  import opened Text
  import opened Reconciliation

  // ---------------------------------------------------------------- which claims count

  /** The part before the first at sign ends with a dollar sign. */
  ghost predicate ComputerText(text: string) {
    exists local :: IsLocal(text, local) && Strip(local) != "" && Strip(local)[|Strip(local)| - 1] == '$'
  }

  ghost predicate IsLocal(text: string, local: string) {
    '@' !in local && (Strip(text) == local || exists rest :: Strip(text) == local + "@" + rest)
  }

  lemma {:induction false} BeforeAtExactly(s: string, local: string)
    ensures BeforeAt(s) == local <==> '@' !in local && (s == local || exists rest :: s == local + "@" + rest)
  {
    if s == [] {
      assert forall rest :: s != local + "@" + rest;
    } else if s[0] == '@' {
      assert s == [] + "@" + s[1..];
      if local != [] {
        assert forall rest :: s == local + "@" + rest ==> local[0] == s[0];
        assert s == local ==> local[0] == '@';
        assert local[0] in local;
      }
    } else {
      if local == [] {
        forall rest ensures s != local + "@" + rest {
          assert (local + "@" + rest)[0] == '@';
        }
      } else {
        BeforeAtExactly(s[1..], local[1..]);
        LocalStep(s, local);
      }
    }
  }

  lemma LocalStep(s: string, local: string)
    requires s != [] && local != [] && s[0] != '@'
    ensures '@' !in local && s == local <==> s[0] == local[0] && '@' !in local[1..] && s[1..] == local[1..]
    ensures '@' !in local && (exists rest :: s == local + "@" + rest) <==>
      s[0] == local[0] && '@' !in local[1..] && exists rest :: s[1..] == local[1..] + "@" + rest
  {
    assert s == [s[0]] + s[1..] && local == [local[0]] + local[1..];
    forall rest ensures s == local + "@" + rest <==> s[0] == local[0] && s[1..] == local[1..] + "@" + rest {
      assert (local + "@" + rest)[1..] == local[1..] + "@" + rest;
      assert local + "@" + rest == [local[0]] + (local[1..] + "@" + rest);
    }
  }

  lemma ComputerExactly(text: string)
    ensures IsComputer(text) <==> ComputerText(text)
  {
    hide Strip, BeforeAt;
    forall local ensures IsLocal(text, local) <==> BeforeAt(Strip(text)) == local {
      BeforeAtExactly(Strip(text), local);
    }
  }

  /** A claim as it is kept: stripped, and in lower case when it is an address. */
  function CleanText(key: string, text: string): string {
    if key in {"email", "user_principal_name"} then Lower(Strip(text)) else Strip(text)
  }

  /** The claim is there, is not blank or a placeholder, and is no computer's account. */
  ghost predicate Counts(claims: Claims, key: string) {
    && key in claims && Strip(claims[key]) != ""
    && Lower(Strip(claims[key])) !in {"unknown", "unavailable", "none", "null"}
    && !(key in {"email", "user_principal_name", "account_name"} && ComputerText(CleanText(key, claims[key])))
  }

  /** Some claim that counts is an identity and not just metadata. */
  ghost predicate NamesPerson(claims: Claims) {
    || Counts(claims, "email") || Counts(claims, "user_principal_name") || Counts(claims, "directory_object_id")
    || Counts(claims, "employee_id") || Counts(claims, "account_name")
  }

  lemma CountsExactly(claims: Claims, key: string)
    ensures Counts(claims, key) <==> key in KeptClaims(claims)
    ensures key in KeptClaims(claims) ==> KeptClaims(claims)[key] == CleanText(key, claims[key])
  {
    hide Strip, Lower, IsComputer, ComputerText;
    if key in claims {
      ComputerExactly(CleanText(key, claims[key]));
    }
  }

  lemma KeptIsUsable(claims: Claims, key: string)
    ensures Usable(Get(KeptClaims(claims), key)) <==> key in KeptClaims(claims)
  {
    hide Usable, CleanValue;
    NothingUsable();
    KeptTwice(claims);
    var kept := KeptClaims(claims);
    if key in kept {
      assert KeepsClaim(key, kept[key]);
    }
  }

  lemma PersonExactly(claims: Claims)
    ensures HasIdentity(KeptClaims(claims)) <==> NamesPerson(claims)
  {
    hide Usable, Counts, Get, KeptClaims;
    forall key ensures Usable(Get(KeptClaims(claims), key)) <==> Counts(claims, key) {
      KeptIsUsable(claims, key);
      CountsExactly(claims, key);
    }
  }

  /** Cleaning keeps exactly the claims that count, cleaned, provided they name a person,
      and nothing at all otherwise. */
  lemma CleanedExactly(claims: Claims, key: string)
    ensures key in Cleaned(claims) <==> NamesPerson(claims) && Counts(claims, key)
    ensures key in Cleaned(claims) ==> Cleaned(claims)[key] == CleanText(key, claims[key])
    ensures HasIdentity(Cleaned(claims)) <==> NamesPerson(claims)
  {
    hide KeptClaims, Counts, NamesPerson, HasIdentity, CleanText;
    CountsExactly(claims, key);
    PersonExactly(claims);
    NobodyIsNoPerson();
  }

  /** An upload's address fills in for a missing email claim, and no other claim changes. */
  lemma UploadedClaims(o: Observation, key: string)
    ensures key != "email" ==> Get(RawClaims(o), key) == Get(o.claims, key)
    ensures key != "email" ==> (key in RawClaims(o) <==> key in o.claims)
    ensures Get(RawClaims(o), "email") == if Get(o.claims, "email") != "" then Get(o.claims, "email") else o.email
  {
  }

  /** What an upload counts for: the previous person when it names somebody but no
      person, and otherwise just what it shows itself. */
  lemma EffectiveExactly(previous: Claims, o: Observation)
    ensures EffectiveClaims(previous, o) ==
      if NamesPerson(RawClaims(o)) then Cleaned(RawClaims(o))
      else if HasIdentity(RawClaims(o)) && NamesPerson(previous) then Cleaned(previous)
      else map[]
  {
    hide KeptClaims, NamesPerson, HasIdentity, RawClaims;
    PersonExactly(RawClaims(o));
    PersonExactly(previous);
    NobodyIsNoPerson();
  }

  // ---------------------------------------------------------------- which identity they show

  function FirstNonEmpty(texts: seq<string>): string {
    if texts == [] then "" else if texts[0] != "" then texts[0] else FirstNonEmpty(texts[1..])
  }

  lemma KeptStripped(claims: Claims, key: string)
    ensures var text := Get(Cleaned(claims), key); Strip(text) == text && (text == "" <==> Plain(text) == "")
  {
    hide Usable, IsComputer, Strip, HasIdentity, Lower;
    NothingPlain();
    StripNothing();
    if key in KeptClaims(claims) {
      StripIsTrim(claims[key]);
      TrimOfLower(Strip(claims[key]));
      TrimStays(Strip(claims[key]));
      TrimStays(Lower(Strip(claims[key])));
    }
  }

  lemma TrimOfLower(s: string)
    ensures Trim(s) ==> Trim(Lower(s))
    ensures Lower(s) == "" <==> s == ""
  {
    LowerKeepsSpaces(s);
  }

  lemma StripNothing()
    ensures Strip("") == ""
  {
  }

  /** A person is compared by the email, or else by the principal name, the object id, the
      employee number or the account, the first that there is, ignoring letter case. */
  lemma KeyExactly(claims: Claims)
    ensures var person := Cleaned(claims);
      IdentityKey(person) ==
        FirstNonEmpty([Plain(Get(person, "email")), Plain(Get(person, "user_principal_name")),
                       Plain(Get(person, "directory_object_id")), Plain(Get(person, "employee_id")),
                       Plain(Get(person, "account_name"))])
  {
    hide Cleaned, Plain, Get, FirstNonEmpty, Strip;
    var person := Cleaned(claims);
    KeptStripped(claims, EMAIL);
    KeptStripped(claims, UPN);
    var a, b := Plain(Get(person, "email")), Plain(Get(person, "user_principal_name"));
    var c, d := Plain(Get(person, "directory_object_id")), Plain(Get(person, "employee_id"));
    var e := Plain(Get(person, "account_name"));
    FirstOfFive(a, b, c, d, e);
  }

  lemma FirstOfFive(a: string, b: string, c: string, d: string, e: string)
    ensures FirstNonEmpty([a, b, c, d, e]) ==
      if a != "" then a else if b != "" then b else if c != "" then c else if d != "" then d else e
  {
    assert [a, b, c, d, e][1..] == [b, c, d, e] && [b, c, d, e][1..] == [c, d, e];
    assert [c, d, e][1..] == [d, e] && [d, e][1..] == [e] && [e][1..] == [];
    assert FirstNonEmpty([e]) == e;
    assert FirstNonEmpty([d, e]) == if d != "" then d else e;
    assert FirstNonEmpty([c, d, e]) == if c != "" then c else if d != "" then d else e;
  }

  // ---------------------------------------------------------------- whom they name

  /** The texts are the same but for letter case and white space around them, and not
      blank. */
  predicate SameText(a: string, b: string) { Plain(a) != "" && Plain(a) == Plain(b) }

  /** The email or the principal name is the employee's work address or an alias. */
  ghost predicate NamedByEmail(e: Employee, claims: Claims) {
    exists address :: (address == e.workEmail || address in e.alternateEmails)
      && (SameText(Get(claims, "email"), address) || SameText(Get(claims, "user_principal_name"), address))
  }

  ghost predicate NamedBy(e: Employee, claims: Claims, tier: Tier) {
    match tier
    case ByEmail => NamedByEmail(e, claims)
    case ByObjectId => SameText(Get(claims, "directory_object_id"), e.objectId)
    case ByEmployeeId => SameText(Get(claims, "employee_id"), e.number)
    case ByAccount => SameText(Get(claims, "account_name"), e.account)
  }

  lemma MatchesExactly(e: Employee, claims: Claims, tier: Tier)
    ensures Matches(e, claims, tier) <==> NamedBy(e, claims, tier)
  {
    hide Plain;
    if tier == ByEmail {
      var values := {Plain(Get(claims, EMAIL)), Plain(Get(claims, UPN))} - {""};
      forall address ensures Plain(address) in values <==>
        SameText(Get(claims, "email"), address) || SameText(Get(claims, "user_principal_name"), address)
      {
      }
    }
  }

  /** Some employee is named in the tier. */
  ghost predicate Named(employees: seq<Employee>, claims: Claims, tier: Tier) {
    exists e :: e in employees && NamedBy(e, claims, tier)
  }

  /** Employees are named in the tier, all of them with this id. */
  ghost predicate OnlyNamed(employees: seq<Employee>, claims: Claims, tier: Tier, id: int) {
    Named(employees, claims, tier) && forall e | e in employees && NamedBy(e, claims, tier) :: e.id == id
  }

  lemma MatchingExactly(employees: seq<Employee>, claims: Claims, tier: Tier, id: int)
    ensures MatchingIds(employees, claims, tier) == {} <==> !Named(employees, claims, tier)
    ensures MatchingIds(employees, claims, tier) == {id} <==> OnlyNamed(employees, claims, tier, id)
  {
    hide Matches, NamedBy;
    var ids := MatchingIds(employees, claims, tier);
    forall e ensures Matches(e, claims, tier) <==> NamedBy(e, claims, tier) {
      MatchesExactly(e, claims, tier);
    }
    if OnlyNamed(employees, claims, tier, id) {
      var e :| e in employees && NamedBy(e, claims, tier);
      assert e.id in ids;
      forall other | other in ids ensures other == id {
      }
      assert ids == {id};
    }
    if ids == {id} {
      forall e | e in employees && NamedBy(e, claims, tier) ensures e.id == id {
        assert e.id in ids;
      }
    }
    if Named(employees, claims, tier) {
      var e :| e in employees && NamedBy(e, claims, tier);
      assert e.id in ids;
    }
  }

  /** The employee that the claims propose: the only one named by email when anybody is,
      or else the only one named by object id, by number or, when that is allowed, by
      account. */
  ghost predicate Proposes(employees: seq<Employee>, claims: Claims, allowAccount: bool, id: int) {
    if Named(employees, claims, ByEmail) then OnlyNamed(employees, claims, ByEmail, id)
    else if Named(employees, claims, ByObjectId) then OnlyNamed(employees, claims, ByObjectId, id)
    else if Named(employees, claims, ByEmployeeId) then OnlyNamed(employees, claims, ByEmployeeId, id)
    else allowAccount && OnlyNamed(employees, claims, ByAccount, id)
  }

  /** An employee is proposed exactly when the claims propose it. */
  lemma ProposedByName(employees: seq<Employee>, claims: Claims, allowAccount: bool, id: int)
    ensures Candidates(employees, claims, Tiers(allowAccount)).employee == Some(id) <==>
      Proposes(employees, claims, allowAccount, id)
  {
    hide MatchingIds, Named, OnlyNamed, Candidates;
    forall tier
      ensures MatchingIds(employees, claims, tier) == {} <==> !Named(employees, claims, tier)
      ensures MatchingIds(employees, claims, tier) == {id} <==> OnlyNamed(employees, claims, tier, id)
    {
      MatchingExactly(employees, claims, tier, id);
    }
    ProposedExactly(employees, claims, Tiers(allowAccount), id);
    var tiers := Tiers(allowAccount);
    assert tiers[0] == ByEmail && tiers[1] == ByObjectId && tiers[2] == ByEmployeeId;
    assert |tiers| == if allowAccount then 4 else 3;
    assert allowAccount ==> tiers[3] == ByAccount;
    if Proposes(employees, claims, allowAccount, id) {
      OnlyIsSome(employees, claims, id);
      var k: nat := if Named(employees, claims, ByEmail) then 0 else if Named(employees, claims, ByObjectId) then 1
        else if Named(employees, claims, ByEmployeeId) then 2 else 3;
      assert DecidesFor(employees, claims, tiers, k, id);
    }
    if k: nat :| DecidesFor(employees, claims, tiers, k, id) {
      assert MatchingIds(employees, claims, tiers[k]) == {id};
      OnlyIsSome(employees, claims, id);
    }
  }

  lemma OnlyIsSome(employees: seq<Employee>, claims: Claims, id: int)
    ensures forall tier :: OnlyNamed(employees, claims, tier, id) ==> Named(employees, claims, tier)
  {
  }

  /** An email that names one employee decides, whatever object id, number or account the
      upload shows beside it. */
  lemma EmailDecides(employees: seq<Employee>, claims: Claims, allowAccount: bool, e: Employee)
    requires e in employees && NamedByEmail(e, claims)
    requires forall other | other in employees && NamedByEmail(other, claims) :: other.id == e.id
    ensures Candidates(employees, claims, Tiers(allowAccount)).employee == Some(e.id)
  {
    hide NamedByEmail, Candidates;
    assert NamedBy(e, claims, ByEmail);
    ProposedByName(employees, claims, allowAccount, e.id);
  }

  /** An account never decides when that is not allowed. */
  lemma AccountNeedsLeave(employees: seq<Employee>, claims: Claims, id: int)
    requires !Named(employees, claims, ByEmail) && !Named(employees, claims, ByObjectId)
    requires !Named(employees, claims, ByEmployeeId)
    ensures Candidates(employees, claims, Tiers(false)).employee != Some(id)
    ensures Candidates(employees, claims, Tiers(true)).employee == Some(id) <==>
      OnlyNamed(employees, claims, ByAccount, id)
  {
    hide Named, OnlyNamed, Candidates;
    ProposedByName(employees, claims, false, id);
    ProposedByName(employees, claims, true, id);
  }

  // ---------------------------------------------------------------- what follows

  /** What each assignment state tells about the claims, the match and the asset before
      the observation; a threshold below one counts as one. */
  lemma StateExactly(claims: Claims, m: Match, asset: AssetView, observations: nat, s: Settings)
    requires m.employee.Some? <==> m.count == 1
    ensures var state, matched := StateFor(claims, m, asset, observations, s), claims != map[] && m.count == 1;
      var free := matched && !asset.shared && asset.assignee == None;
      && (state == NoObservation <==> claims == map[])
      && (state == AmbiguousIdentity <==> claims != map[] && 1 < m.count)
      && (state == NeedsReview <==> claims != map[] && m.count == 0)
      && (state == SharedDevice <==> matched && asset.shared)
      && (state == Confirmed <==> matched && !asset.shared && asset.assignee == m.employee)
      && (state == Conflict <==> matched && !asset.shared && asset.assignee != None && asset.assignee != m.employee)
      && (state == AutomaticallyAssigned <==> free && 1 <= observations && s.threshold <= observations)
      && (state == PendingConfirmation <==> free && (observations < 1 || observations < s.threshold))
  {
  }

  /** The same upload so many times. */
  function Repeated(u: Upload, n: nat): seq<Upload> {
    if n == 0 then [] else Repeated(u, n - 1) + [u]
  }

  lemma {:induction false} RepeatedIs(u: Upload, n: nat)
    ensures |Repeated(u, n)| == n && forall i | 0 <= i < n :: Repeated(u, n)[i] == u
  {
    if 0 < n {
      RepeatedIs(u, n - 1);
    }
  }

  lemma EffectiveOfPerson(run: seq<Upload>)
    requires run != [] && NamesPerson(RawClaims(run[|run| - 1].o))
    ensures EffectiveAfter(run) == Cleaned(RawClaims(run[|run| - 1].o))
  {
    hide EffectiveClaims, Cleaned, RawClaims, NamesPerson;
    EffectiveExactly(EffectiveAfter(run[..|run| - 1]), run[|run| - 1].o);
  }

  lemma RepeatedKeys(u: Upload, n: nat, t: nat)
    requires 0 < n && 0 < t && NamesPerson(RawClaims(u.o))
    ensures SameKeys(Keys(Repeated(u, n)), t) <==> t <= n
  {
    hide Cleaned, RawClaims, NamesPerson, IdentityKey, HasIdentity, Keys, EffectiveAfter;
    var run := Repeated(u, n);
    RepeatedIs(u, n);
    CleanedExactly(RawClaims(u.o), EMAIL);
    PersonHasKey(RawClaims(u.o));
    forall i | 0 <= i < n ensures Keys(run)[i] == IdentityKey(Cleaned(RawClaims(u.o))) {
      KeysAt(run, i);
      EffectiveOfPerson(run[..i + 1]);
    }
  }

  /** A new agent that sends the same upload again and again gets its free asset assigned
      to the employee the upload proposes, from the threshold on and not before, and to
      nobody else. */
  lemma {:induction false} RepeatedAssigns(asset: AssetView, u: Upload, n: nat, id: int)
    requires asset.assignee.None? && !asset.shared && NamesPerson(RawClaims(u.o))
    ensures Holder(asset, Repeated(u, n)) == Some(id) <==>
      1 <= n && u.s.threshold <= n && Proposes(u.s.employees, Cleaned(RawClaims(u.o)), u.s.allowAccount, id)
    decreases n
  {
    hide Cleaned, RawClaims, NamesPerson, Proposes, After, EffectiveAfter, Keys, SameKeys, Candidates, DecidesFor;
    hide Tiers;
    if n == 0 {
      NobodyAtFirst(asset);
    } else {
      var before, run := Repeated(u, n - 1), Repeated(u, n);
      var holder := Holder(asset, before);
      RepeatedIs(u, n);
      RepeatedAssigns(asset, u, n - 1, id);
      EffectiveOfPerson(run);
      var claims := Cleaned(RawClaims(u.o));
      ProposedByName(u.s.employees, claims, u.s.allowAccount, id);
      if holder.None? {
        AssignedExactly(asset, before, u, id);
        RepeatedKeys(u, n, Threshold(u.s));
        ProposedExactly(u.s.employees, claims, Tiers(u.s.allowAccount), id);
      } else {
        RepeatedAssigns(asset, u, n - 1, holder.value);
        ProposedByName(u.s.employees, claims, u.s.allowAccount, holder.value);
        assert run[..n - 1] == before;
        AssignedForever(asset, run, n - 1);
      }
    }
  }

  lemma NobodyAtFirst(asset: AssetView)
    ensures Holder(asset, []) == asset.assignee
  {
  }

  /** The address names the employee and nobody else. */
  ghost predicate OnlyAddressOf(employees: seq<Employee>, e: Employee, text: string) {
    && e in employees && HasAddress(e, text)
    && forall other | other in employees && HasAddress(other, text) :: other.id == e.id
  }

  ghost predicate HasAddress(e: Employee, text: string) {
    exists address :: (address == e.workEmail || address in e.alternateEmails) && SameText(text, address)
  }

  lemma PlainOfClean(key: string, text: string)
    ensures Plain(CleanText(key, text)) == Plain(text)
  {
    hide Strip;
    StripIsTrim(text);
    LowerKeepsSpaces(Strip(text));
    TrimStays(Strip(text));
    TrimStays(Lower(Strip(text)));
    LowerTwice(Strip(text));
  }

  /** Claims with a single address. */
  lemma AddressClaims(text: string, address: string)
    requires Counts(map["email" := text], "email")
    ensures var claims := Cleaned(RawClaims(Observation(text, map[])));
      NamesPerson(RawClaims(Observation(text, map[])))
      && (SameText(Get(claims, "email"), address) || SameText(Get(claims, "user_principal_name"), address) <==>
          SameText(text, address))
  {
    hide Counts, Cleaned, NamesPerson, Plain, CleanText;
    var raw := RawClaims(Observation(text, map[]));
    TextThere(text);
    assert raw == map["email" := text];
    OneNamesPerson(raw);
    CleanedExactly(raw, "email");
    CleanedExactly(raw, "user_principal_name");
    OtherDoesNotCount(raw);
    PlainOfClean("email", text);
    NothingPlain();
  }

  lemma TextThere(text: string)
    requires Counts(map["email" := text], "email")
    ensures text != ""
  {
    StripNothing();
  }

  lemma OneNamesPerson(claims: Claims)
    requires Counts(claims, "email")
    ensures NamesPerson(claims)
  {
  }

  lemma OtherDoesNotCount(claims: Claims)
    requires "user_principal_name" !in claims
    ensures !Counts(claims, "user_principal_name")
  {
  }

  /** Whoever signs in under an address that is the work address or an alias of a single
      employee, in any letter case and with blanks around it, gets the free asset for that
      employee after as many uploads as the threshold, and not before. */
  lemma AddressAssigns(asset: AssetView, text: string, s: Settings, n: nat, e: Employee)
    requires asset.assignee.None? && !asset.shared
    requires Counts(map["email" := text], "email") && OnlyAddressOf(s.employees, e, text)
    ensures Holder(asset, Repeated(Upload(Observation(text, map[]), s), n)) == Some(e.id) <==>
      1 <= n && s.threshold <= n
  {
    hide Counts, Cleaned, NamesPerson, RawClaims, Holder, Repeated, SameText, Get;
    var u := Upload(Observation(text, map[]), s);
    var claims := Cleaned(RawClaims(u.o));
    forall address
      ensures NamesPerson(RawClaims(u.o))
      ensures SameText(Get(claims, "email"), address) || SameText(Get(claims, "user_principal_name"), address) <==>
        SameText(text, address)
    {
      AddressClaims(text, address);
    }
    AddressClaims(text, text);
    forall other ensures NamedBy(other, claims, ByEmail) <==> HasAddress(other, text) {
    }
    assert NamedBy(e, claims, ByEmail);
    RepeatedAssigns(asset, u, n, e.id);
  }

  /** The claim of a tier below email, and the field it names an employee by. */
  function ClaimOf(tier: Tier): string {
    match tier
    case ByEmail => "email"
    case ByObjectId => "directory_object_id"
    case ByEmployeeId => "employee_id"
    case ByAccount => "account_name"
  }

  function FieldOf(e: Employee, tier: Tier): string {
    match tier
    case ByEmail => e.workEmail
    case ByObjectId => e.objectId
    case ByEmployeeId => e.number
    case ByAccount => e.account
  }

  lemma OneClaim(tier: Tier, text: string)
    requires tier != ByEmail && Counts(map[ClaimOf(tier) := text], ClaimOf(tier))
    ensures NamesPerson(map[ClaimOf(tier) := text])
    ensures RawClaims(Observation("", map[ClaimOf(tier) := text])) == map[ClaimOf(tier) := text]
  {
    hide Counts;
  }

  lemma ClaimsApart(tier: Tier, other: Tier)
    ensures ClaimOf(tier) == ClaimOf(other) <==> tier == other
    ensures ClaimOf(tier) != "user_principal_name"
  {
  }

  lemma NoOtherClaim(claims: Claims, key: string)
    requires key !in claims
    ensures Get(Cleaned(claims), key) == ""
  {
    hide NamesPerson;
    CleanedExactly(claims, key);
  }

  /** An upload with a single claim below email names employees by that claim alone. */
  lemma OneClaimNames(tier: Tier, text: string, e: Employee, other: Tier)
    requires tier != ByEmail && Counts(map[ClaimOf(tier) := text], ClaimOf(tier))
    ensures NamedBy(e, Cleaned(map[ClaimOf(tier) := text]), other) <==>
      other == tier && SameText(text, FieldOf(e, tier))
  {
    hide Counts, Cleaned, NamesPerson, CleanText, Plain, Get;
    var claims: Claims := map[ClaimOf(tier) := text];
    OneClaim(tier, text);
    ClaimsApart(tier, other);
    ClaimsApart(tier, ByEmail);
    CleanedExactly(claims, ClaimOf(tier));
    PlainOfClean(ClaimOf(tier), text);
    NothingPlain();
    if other != tier {
      NoOtherClaim(claims, ClaimOf(other));
      NoOtherClaim(claims, "user_principal_name");
    } else {
      FoundClaim(Cleaned(claims), ClaimOf(tier));
    }
  }

  lemma FoundClaim(claims: Claims, key: string)
    requires key in claims
    ensures Get(claims, key) == claims[key]
  {
  }

  /** The same holds for an upload with a single object id, employee number or account:
      the employee with that text gets the asset, as far as the tier is allowed. */
  lemma ClaimAssigns(asset: AssetView, tier: Tier, text: string, s: Settings, n: nat, e: Employee)
    requires asset.assignee.None? && !asset.shared && tier != ByEmail
    requires Counts(map[ClaimOf(tier) := text], ClaimOf(tier))
    requires e in s.employees && SameText(text, FieldOf(e, tier))
    requires forall other | other in s.employees && SameText(text, FieldOf(other, tier)) :: other.id == e.id
    ensures Holder(asset, Repeated(Upload(Observation("", map[ClaimOf(tier) := text]), s), n)) == Some(e.id) <==>
      1 <= n && s.threshold <= n && (tier == ByAccount ==> s.allowAccount)
  {
    hide Counts, Cleaned, NamesPerson, RawClaims, Holder, Repeated, SameText, ClaimOf, FieldOf, NamedBy;
    var u := Upload(Observation("", map[ClaimOf(tier) := text]), s);
    var claims := Cleaned(map[ClaimOf(tier) := text]);
    OneClaim(tier, text);
    forall x, other ensures NamedBy(x, claims, other) <==> other == tier && SameText(text, FieldOf(x, tier)) {
      OneClaimNames(tier, text, x, other);
    }
    assert NamedBy(e, claims, tier);
    RepeatedAssigns(asset, u, n, e.id);
  }

  /** What an observation leaves on the agent and the asset: the claims it counts for and
      their address, the match, and an asset that is new only until it is assigned. */
  lemma ObservationRecords(agent: AgentView, asset: AssetView, o: Observation, s: Settings)
    ensures var (a, owned) := Reconciled(agent, asset, o, s);
      && a.observed == EffectiveClaims(agent.observed, o)
      && a.email == (if EmailOf(a.observed) == "" then None else Some(EmailOf(a.observed)))
      && (a.matched.Some? ==> Proposes(s.employees, a.observed, s.allowAccount, a.matched.value))
      && owned.shared == asset.shared
      && (if asset.assignee.None? && owned.assignee.Some?
          then owned.assignee == a.matched && !owned.discovered && a.state == AutomaticallyAssigned
          else owned == asset && a.state != AutomaticallyAssigned)
  {
    hide EffectiveClaims, EmailOf, IdentityKey, Candidates, Tiers, Proposes, Cleaned;
    var (a, owned) := Reconciled(agent, asset, o, s);
    if a.matched.Some? {
      ProposedByName(s.employees, a.observed, s.allowAccount, a.matched.value);
    }
  }

  /** The observed address is the email or else the principal name, in lower case. */
  lemma AddressExactly(claims: Claims)
    ensures EmailOf(Cleaned(claims)) ==
      FirstNonEmpty([Plain(Get(Cleaned(claims), "email")), Plain(Get(Cleaned(claims), "user_principal_name"))])
  {
    hide Cleaned, Plain, Get;
    KeptStripped(claims, EMAIL);
    KeptStripped(claims, UPN);
    var a, b := Plain(Get(Cleaned(claims), "email")), Plain(Get(Cleaned(claims), "user_principal_name"));
    assert [a, b][1..] == [b] && [b][1..] == [];
    assert FirstNonEmpty([b]) == b;
  }
}
