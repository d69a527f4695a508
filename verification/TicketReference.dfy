/** Ticket numbers: issuing them, printing them into email subjects and finding
    them again in replies.  Text is ASCII. */
module TicketReference {
  import opened Wrappers
  import opened Text

  const SUBJECT_LIMIT: nat := 240

  datatype Prefix = REQ | INC | CHG | HR {
    function Letters(): (r: string)
      ensures 2 <= |r| <= 3
    {
      match this
      case REQ => "REQ"
      case INC => "INC"
      case CHG => "CHG"
      case HR => "HR"
    }
  }

  datatype Ticket = Ticket(number: string, subject: string)

  /** The number of a ticket as it is stored. */
  function TicketNumber(prefix: Prefix, n: nat): string {
    prefix.Letters() + "-" + Padded(n)
  }

  // ---------------------------------------------------------------- issuing

  function PrefixFor(requestType: string): Prefix {
    var lowered := Lower(requestType);
    if Contains(lowered, "change") then CHG
    else if requestType == "Report an issue" || Contains(lowered, "incident") then INC
    else if requestType == "New employee request" then HR
    else REQ
  }

  function ValueOf(values: map<Prefix, nat>, prefix: Prefix): nat {
    if prefix in values then values[prefix] else 0
  }

  class Sequences {
    var values: map<Prefix, nat>

    constructor ()
      ensures values == map[]
    {
      values := map[];
    }

    method NextTicketNumber(requestType: string) returns (number: string)
      modifies this
      ensures var p := PrefixFor(requestType);
        && number == TicketNumber(p, old(ValueOf(values, p)) + 1)
        && values == old(values)[p := old(ValueOf(values, p)) + 1]
    {
      var prefix := PrefixFor(requestType);
      if prefix !in values {
        values := values[prefix := 0];
      }
      values := values[prefix := values[prefix] + 1];
      number := TicketNumber(prefix, values[prefix]);
    }
  }

  /** The numbers issued for a run of requests. */
  function Issued(values: map<Prefix, nat>, requests: seq<string>): seq<string>
    decreases |requests|
  {
    if requests == [] then []
    else
      var p := PrefixFor(requests[0]);
      var n := ValueOf(values, p) + 1;
      [TicketNumber(p, n)] + Issued(values[p := n], requests[1..])
  }

  lemma NumbersDistinct(p: Prefix, m: nat, q: Prefix, n: nat)
    requires TicketNumber(p, m) == TicketNumber(q, n)
    ensures p == q && m == n
  {
    var a, b := TicketNumber(p, m), TicketNumber(q, n);
    assert a[0] == p.Letters()[0] && b[0] == q.Letters()[0];
    assert p == q;
    assert a[|p.Letters()| + 1..] == Padded(m) && b[|p.Letters()| + 1..] == Padded(n);
    NumberOfPadded(m);
    NumberOfPadded(n);
  }

  /** Later numbers carry a higher sequence value of their prefix. */
  lemma {:induction false} IssuedLater(values: map<Prefix, nat>, requests: seq<string>, i: nat)
    requires i < |Issued(values, requests)|
    ensures exists p, n :: Issued(values, requests)[i] == TicketNumber(p, n) && ValueOf(values, p) < n
    decreases |requests|
  {
    hide PrefixFor, TicketNumber;
    var p := PrefixFor(requests[0]);
    var n := ValueOf(values, p) + 1;
    if i == 0 {
      assert Issued(values, requests)[0] == TicketNumber(p, n);
    } else {
      IssuedLater(values[p := n], requests[1..], i - 1);
      var q, m :| Issued(values[p := n], requests[1..])[i - 1] == TicketNumber(q, m) && ValueOf(values[p := n], q) < m;
      assert Issued(values, requests)[i] == TicketNumber(q, m);
    }
  }

  /** No number is ever issued twice. */
  lemma {:induction false} IssuedNumbersDistinct(values: map<Prefix, nat>, requests: seq<string>, i: nat, j: nat)
    requires i < j < |Issued(values, requests)|
    ensures Issued(values, requests)[i] != Issued(values, requests)[j]
    decreases |requests|
  {
    hide PrefixFor, TicketNumber;
    var p := PrefixFor(requests[0]);
    var n := ValueOf(values, p) + 1;
    if 0 < i {
      IssuedNumbersDistinct(values[p := n], requests[1..], i - 1, j - 1);
    } else {
      IssuedLater(values[p := n], requests[1..], j - 1);
      var q, m :| Issued(values[p := n], requests[1..])[j - 1] == TicketNumber(q, m) && ValueOf(values[p := n], q) < m;
      if TicketNumber(p, n) == TicketNumber(q, m) {
        NumbersDistinct(p, n, q, m);
      }
    }
  }

  // ---------------------------------------------------------------- finding

  predicate IsLetter(c: char) { 'A' <= c <= 'Z' || 'a' <= c <= 'z' }

  predicate IsWordChar(c: char) { IsLetter(c) || IsDigit(c) }

  /** `s` continues at `i` with the prefix, in any letter case, and a hyphen. */
  predicate PrefixAt(s: string, i: nat, prefix: Prefix) {
    var w := prefix.Letters();
    i + |w| < |s| && Lower(s[i..i + |w|]) == Lower(w) && s[i + |w|] == '-'
  }

  /** The end of the digits that start at `i`. */
  function DigitsEnd(s: string, i: nat): (r: nat)
    requires i <= |s|
    ensures i <= r <= |s| && AllDigits(s[i..r])
    ensures r < |s| ==> !IsDigit(s[r])
    decreases |s| - i
  {
    if i < |s| && IsDigit(s[i]) then
      var r := DigitsEnd(s, i + 1);
      assert s[i..r] == [s[i]] + s[i + 1..r];
      r
    else i
  }

  /** A reference starts at `i`: it is not part of a longer word and its digits end
      where the word ends. */
  predicate ReferenceAt(s: string, i: nat, prefix: Prefix) {
    && PrefixAt(s, i, prefix)
    && (0 < i ==> !IsWordChar(s[i - 1]))
    && var digits := i + |prefix.Letters()| + 1;
       var end := DigitsEnd(s, digits);
       digits < end && (end < |s| ==> !IsWordChar(s[end]))
  }

  function DigitsAt(s: string, i: nat, prefix: Prefix): (r: string)
    requires PrefixAt(s, i, prefix)
    ensures AllDigits(r)
  {
    var digits := i + |prefix.Letters()| + 1;
    s[digits..DigitsEnd(s, digits)]
  }

  function PrefixFound(s: string, i: nat): Option<Prefix> {
    if ReferenceAt(s, i, REQ) then Some(REQ)
    else if ReferenceAt(s, i, INC) then Some(INC)
    else if ReferenceAt(s, i, CHG) then Some(CHG)
    else if ReferenceAt(s, i, HR) then Some(HR)
    else None
  }

  /** The ticket number of the first reference from `i` on. */
  function FindFrom(s: string, i: nat): Option<string>
    requires i <= |s|
    decreases |s| - i
  {
    if i == |s| then None
    else
      var found := PrefixFound(s, i);
      if found.Some? then Some(TicketNumber(found.value, NumberOf(DigitsAt(s, i, found.value))))
      else FindFrom(s, i + 1)
  }

  /** The stored number of the ticket an email subject refers to. */
  function NumberFromSubject(subject: string): Option<string> {
    FindFrom(subject, 0)
  }

  // ---------------------------------------------------------------- printing

  function Truncated(s: string): string {
    if |s| <= SUBJECT_LIMIT then s else s[..SUBJECT_LIMIT]
  }

  /** The subject as given, or the ticket's own when none is given. */
  function PlainSubject(ticket: Ticket, requested: string): string {
    Collapsed(if requested != "" then requested else ticket.subject)
  }

  function EmailSubject(ticket: Ticket, requested: string): string {
    var subject := PlainSubject(ticket, requested);
    Truncated(if Contains(Lower(subject), Lower(ticket.number)) then subject else "[" + ticket.number + "] " + subject)
  }

  // ---------------------------------------------------------------- agreement

  lemma PrefixOnly(s: string, i: nat, p: Prefix, q: Prefix)
    requires PrefixAt(s, i, p) && PrefixAt(s, i, q)
    ensures p == q
  {
    var v, w := p.Letters(), q.Letters();
    assert Lower(s[i..i + |v|])[0] == Lower(v)[0] == LowerChar(v[0]);
    assert Lower(s[i..i + |w|])[0] == Lower(w)[0] == LowerChar(w[0]);
  }

  lemma FoundWhereReferenced(s: string, i: nat, p: Prefix)
    requires ReferenceAt(s, i, p)
    ensures PrefixFound(s, i) == Some(p)
  {
    PrefixOnly(s, i, p, PrefixFound(s, i).value);
  }

  lemma {:induction false} DigitsEndAt(s: string, i: nat, end: nat)
    requires i <= end <= |s| && AllDigits(s[i..end]) && (end < |s| ==> !IsDigit(s[end]))
    ensures DigitsEnd(s, i) == end
    decreases end - i
  {
    if i < end {
      assert s[i..end][0] == s[i] && s[i..end][1..] == s[i + 1..end];
      DigitsEndAt(s, i + 1, end);
    }
  }

  /** A prefix, a hyphen and digits between two characters that belong to no word
      are a reference, in any letter case and with any number of leading zeros. */
  lemma ReferenceReads(s: string, i: nat, w: string, p: Prefix, digits: string)
    requires Lower(w) == Lower(p.Letters()) && digits != [] && AllDigits(digits)
    requires i + |w| + 1 + |digits| <= |s| && s[i..i + |w| + 1 + |digits|] == w + "-" + digits
    requires 0 < i ==> !IsWordChar(s[i - 1])
    requires i + |w| + 1 + |digits| < |s| ==> !IsWordChar(s[i + |w| + 1 + |digits|])
    ensures ReferenceAt(s, i, p) && DigitsAt(s, i, p) == digits
    ensures FindFrom(s, i) == Some(TicketNumber(p, NumberOf(digits)))
  {
    hide NumberOf, TicketNumber, ReferenceAt, DigitsAt, PrefixFound, IsWordChar, Lower, PrefixAt, Prefix.Letters;
    ReferenceParts(s, i, w, p, digits);
    ReferenceHolds(s, i, p, i + |w| + 1 + |digits|);
    FoundWhereReferenced(s, i, p);
  }

  lemma ReferenceHolds(s: string, i: nat, p: Prefix, end: nat)
    requires PrefixAt(s, i, p) && i + |p.Letters()| + 1 < end <= |s| && AllDigits(s[i + |p.Letters()| + 1..end])
    requires 0 < i ==> !IsWordChar(s[i - 1])
    requires end < |s| ==> !IsWordChar(s[end])
    ensures ReferenceAt(s, i, p) && DigitsAt(s, i, p) == s[i + |p.Letters()| + 1..end]
  {
    hide DigitsEnd, PrefixAt, Prefix.Letters, IsWordChar;
    if end < |s| {
      OutsideWord(s[end]);
    }
    DigitsEndAt(s, i + |p.Letters()| + 1, end);
  }

  lemma OutsideWord(c: char)
    requires !IsWordChar(c)
    ensures !IsDigit(c)
  {
  }

  lemma ReferenceParts(s: string, i: nat, w: string, p: Prefix, digits: string)
    requires Lower(w) == Lower(p.Letters()) && digits != []
    requires i + |w| + 1 + |digits| <= |s| && s[i..i + |w| + 1 + |digits|] == w + "-" + digits
    ensures |w| == |p.Letters()| && PrefixAt(s, i, p)
    ensures s[i + |w| + 1..i + |w| + 1 + |digits|] == digits
  {
    hide LowerChar;
    var end := i + |w| + 1 + |digits|;
    assert |Lower(w)| == |w|;
    assert s[i..i + |w|] == s[i..end][..|w|] == w;
    assert s[i + |w|] == s[i..end][|w|];
    assert s[i + |w| + 1..end] == s[i..end][|w| + 1..] == digits;
  }

  lemma PrefixIsLetter(s: string, i: nat, p: Prefix)
    requires PrefixAt(s, i, p)
    ensures IsLetter(s[i])
  {
    var w := p.Letters();
    assert Lower(s[i..i + |w|])[0] == LowerChar(s[i]) && Lower(w)[0] == LowerChar(w[0]);
  }

  lemma BracketIsNoReference(s: string)
    requires s != [] && s[0] == '['
    ensures FindFrom(s, 0) == FindFrom(s, 1)
  {
    forall p ensures !ReferenceAt(s, 0, p) {
      if PrefixAt(s, 0, p) {
        PrefixIsLetter(s, 0, p);
      }
    }
  }

  /** What the subject limit leaves of a bracketed number. */
  lemma BracketedNumber(number: string, subject: string)
    ensures var text := Truncated("[" + number + "] " + subject);
      && text != [] && text[0] == '['
      && (if |number| < SUBJECT_LIMIT
          then
            && |number| < |text| && text[1..1 + |number|] == number
            && (1 + |number| < |text| ==> text[1 + |number|] == ']')
          else |text| == SUBJECT_LIMIT && text[1..] == number[..SUBJECT_LIMIT - 1])
  {
    var whole := "[" + number + "] " + subject;
    assert whole[1..1 + |number|] == number;
    if SUBJECT_LIMIT <= |number| {
      assert whole[..SUBJECT_LIMIT][1..] == whole[1..1 + |number|][..SUBJECT_LIMIT - 1];
    } else {
      assert Truncated(whole)[1..1 + |number|] == whole[1..1 + |number|];
    }
  }

  lemma NumberParts(p: Prefix, n: nat)
    ensures TicketNumber(p, n) == p.Letters() + "-" + Padded(n)
    ensures |TicketNumber(p, n)| == |p.Letters()| + 1 + |Padded(n)|
    ensures AllDigits(Padded(n)) && NumberOf(Padded(n)) == n
  {
    NumberOfPadded(n);
  }

  /** Printer and parser agree.  A subject that does not mention the ticket yet is
      printed so that the ticket's number is read back, after truncation and even
      when the subject mentions other tickets, exactly as long as the number is
      shorter than the subject limit. */
  lemma PrintedNumberReadsBack(ticket: Ticket, requested: string, p: Prefix, n: nat)
    requires ticket.number == TicketNumber(p, n)
    requires !Contains(Lower(PlainSubject(ticket, requested)), Lower(ticket.number))
    ensures NumberFromSubject(EmailSubject(ticket, requested)) == Some(ticket.number) <==>
      |ticket.number| < SUBJECT_LIMIT
  {
    hide ReferenceAt, Padded, NumberOf, Collapsed, Contains, Lower, TicketNumber, Truncated;
    var text := EmailSubject(ticket, requested);
    BracketedNumber(ticket.number, PlainSubject(ticket, requested));
    BracketIsNoReference(text);
    NumberParts(p, n);
    if |ticket.number| < SUBJECT_LIMIT {
      ReferenceReads(text, 1, p.Letters(), p, Padded(n));
    } else {
      CutNumberReads(text, p, n);
    }
  }

  lemma CutParts(w: string, digits: string, k: nat)
    requires |w| < k <= |w| + 1 + |digits|
    ensures (w + "-" + digits)[..k] == w + "-" + digits[..k - |w| - 1]
  {
  }

  /** A number cut off by the limit is read back as a shorter one. */
  lemma CutNumberReads(text: string, p: Prefix, n: nat)
    requires SUBJECT_LIMIT <= |TicketNumber(p, n)| && |text| == SUBJECT_LIMIT && text[0] == '['
    requires text[1..] == TicketNumber(p, n)[..SUBJECT_LIMIT - 1]
    ensures FindFrom(text, 1) != Some(TicketNumber(p, n))
  {
    hide NumberOf, Padded, Decimal, ReferenceAt, FindFrom;
    var w := p.Letters();
    NumberParts(p, n);
    CutParts(w, Padded(n), SUBJECT_LIMIT - 1);
    var digits := Padded(n)[..SUBJECT_LIMIT - 2 - |w|];
    assert text[1..1 + |w| + 1 + |digits|] == text[1..];
    ReferenceReads(text, 1, w, p, digits);
    DecimalShort(digits);
    PaddedLength(NumberOf(digits));
    NumberParts(p, NumberOf(digits));
  }

  /** Every value the sequence column can hold gives a number that reads back. */
  lemma StoredNumberReadsBack(ticket: Ticket, requested: string, p: Prefix, n: nat)
    requires n < 0x8000_0000 && ticket.number == TicketNumber(p, n)
    requires !Contains(Lower(PlainSubject(ticket, requested)), Lower(ticket.number))
    ensures NumberFromSubject(EmailSubject(ticket, requested)) == Some(ticket.number)
  {
    DecimalLength(n, 10);
    PrintedNumberReadsBack(ticket, requested, p, n);
  }

  predicate OneWord(s: string) { s != [] && forall i | 0 <= i < |s| :: !IsSpace(s[i]) }

  lemma WordCollapses(s: string)
    requires OneWord(s)
    ensures Collapsed(s) == s
  {
    FirstWordOfWord(s);
    assert StripLeft(s) == s && s[|s|..] == [];
  }

  lemma NumberIsWord(p: Prefix, n: nat)
    ensures OneWord(TicketNumber(p, n))
  {
  }

  lemma MentionAtEnd(a: string, b: string)
    ensures Contains(Lower(a + b), Lower(b))
  {
    assert OccursAt(Lower(a + b), Lower(b), |a|);
  }

  // ---------------------------------------------------------------- subjects that mention the number

  /** A reference starts at `k` and none before it. */
  ghost predicate FirstReference(s: string, k: nat, p: Prefix) {
    ReferenceAt(s, k, p) && forall j: nat, q | j < k :: !ReferenceAt(s, j, q)
  }

  /** The first reference in the text has the prefix and stands for the value, in any
      letter case and with or without leading zeros. */
  ghost predicate FirstRefersTo(s: string, p: Prefix, n: nat) {
    exists k: nat :: FirstReference(s, k, p) && NumberOf(DigitsAt(s, k, p)) == n
  }

  lemma NothingReferenced(s: string, i: nat)
    requires PrefixFound(s, i).None?
    ensures forall p :: !ReferenceAt(s, i, p)
  {
    hide ReferenceAt;
    forall p ensures !ReferenceAt(s, i, p) {
      match p
      case REQ =>
      case INC =>
      case CHG =>
      case HR =>
    }
  }

  lemma {:induction false} FoundFirst(s: string, i: nat, p: Prefix, n: nat)
    requires i <= |s| && forall j: nat, q | j < i :: !ReferenceAt(s, j, q)
    ensures FindFrom(s, i) == Some(TicketNumber(p, n)) <==> FirstRefersTo(s, p, n)
    decreases |s| - i
  {
    hide ReferenceAt, TicketNumber, NumberOf, DigitsAt, PrefixFound;
    if i == |s| {
      NoReferencePastEnd(s);
    } else if PrefixFound(s, i).None? {
      NothingReferenced(s, i);
      FoundFirst(s, i + 1, p, n);
    } else {
      var q := PrefixFound(s, i).value;
      FoundReferences(s, i);
      if TicketNumber(q, NumberOf(DigitsAt(s, i, q))) == TicketNumber(p, n) {
        NumbersDistinct(q, NumberOf(DigitsAt(s, i, q)), p, n);
      }
      OnlyFirst(s, i, q, p, n);
    }
  }

  lemma FoundReferences(s: string, i: nat)
    requires PrefixFound(s, i).Some?
    ensures ReferenceAt(s, i, PrefixFound(s, i).value) && PrefixAt(s, i, PrefixFound(s, i).value)
  {
  }

  lemma NoReferencePastEnd(s: string)
    ensures forall k: nat, q | |s| <= k :: !ReferenceAt(s, k, q)
  {
  }

  /** The first reference decides what the text refers to. */
  lemma OnlyFirst(s: string, i: nat, q: Prefix, p: Prefix, n: nat)
    requires FirstReference(s, i, q)
    ensures FirstRefersTo(s, p, n) <==> p == q && NumberOf(DigitsAt(s, i, q)) == n
  {
    hide NumberOf, DigitsAt;
    if k: nat :| FirstReference(s, k, p) && NumberOf(DigitsAt(s, k, p)) == n {
      assert k == i;
      PrefixOnly(s, i, p, q);
    }
  }

  /** Printer and parser on a subject that mentions the number already: it is printed
      as it is, cut at the limit, and the number is read back exactly when the first
      reference in the cut text stands for it. */
  lemma MentionReadsBack(ticket: Ticket, requested: string, p: Prefix, n: nat)
    requires ticket.number == TicketNumber(p, n)
    requires Contains(Lower(PlainSubject(ticket, requested)), Lower(ticket.number))
    ensures NumberFromSubject(EmailSubject(ticket, requested)) == Some(ticket.number) <==>
      FirstRefersTo(Truncated(PlainSubject(ticket, requested)), p, n)
  {
    hide FirstRefersTo, TicketNumber, FindFrom, Contains, Lower, Collapsed, ReferenceAt;
    FoundFirst(Truncated(PlainSubject(ticket, requested)), 0, p, n);
  }

  /** The first way to fail: a ticket mentioned earlier takes the reply.  This happens
      for every two tickets. */
  lemma EarlierMentionWins(p: Prefix, m: nat, q: Prefix, n: nat, own: string)
    requires |TicketNumber(p, m)| + 1 + |TicketNumber(q, n)| <= SUBJECT_LIMIT
    ensures var requested := TicketNumber(p, m) + "/" + TicketNumber(q, n);
      NumberFromSubject(EmailSubject(Ticket(TicketNumber(q, n), own), requested)) == Some(TicketNumber(p, m))
  {
    hide ReferenceAt, Padded, NumberOf, Contains, Lower, TicketNumber, Collapsed, FindFrom;
    var first, second := TicketNumber(p, m), TicketNumber(q, n);
    var requested := first + "/" + second;
    NumberIsWord(p, m);
    NumberIsWord(q, n);
    WordCollapses(requested);
    MentionAtEnd(first + "/", second);
    NumberParts(p, m);
    assert requested[..|first|] == first;
    ReferenceReads(requested, 0, p.Letters(), p, Padded(m));
  }

  /** From a million on, a number starts with the number of another ticket. */
  lemma LongerNumber(p: Prefix, m: nat)
    requires 1_000_000 <= m
    ensures TicketNumber(p, m) == TicketNumber(p, m / 10) + [DigitChar(m % 10)]
  {
    DecimalLong(m / 10, 5);
    assert Decimal(m) == Decimal(m / 10) + [DigitChar(m % 10)];
    assert Padded(m) == Decimal(m) && Padded(m / 10) == Decimal(m / 10);
  }

  lemma MentionAtStart(a: string, b: string)
    ensures Contains(Lower(a + b), Lower(a))
  {
    assert OccursAt(Lower(a + b), Lower(a), 0);
  }

  /** The second way: a longer number contains the ticket's own, so the subject counts
      as mentioning it and reads back as the other ticket. */
  lemma LongerNumberWins(p: Prefix, m: nat, own: string)
    requires 1_000_000 <= m && |TicketNumber(p, m)| <= SUBJECT_LIMIT
    ensures TicketNumber(p, m) != TicketNumber(p, m / 10)
    ensures NumberFromSubject(EmailSubject(Ticket(TicketNumber(p, m / 10), own), TicketNumber(p, m))) ==
      Some(TicketNumber(p, m))
  {
    hide ReferenceAt, Padded, NumberOf, Contains, Lower, TicketNumber, Collapsed, FindFrom, Decimal;
    var number, longer := TicketNumber(p, m / 10), TicketNumber(p, m);
    LongerNumber(p, m);
    NumberIsWord(p, m);
    WordCollapses(longer);
    MentionAtStart(number, [DigitChar(m % 10)]);
    NumberParts(p, m);
    ReferenceReads(longer, 0, p.Letters(), p, Padded(m));
  }

  lemma {:induction false} NothingFound(s: string, i: nat)
    requires i <= |s| && forall k | 0 <= k < |s| :: !IsLetter(s[k])
    ensures FindFrom(s, i) == None
    decreases |s| - i
  {
    hide ReferenceAt;
    if i < |s| {
      forall p ensures !ReferenceAt(s, i, p) {
        NoLetterNoReference(s, i, p);
      }
      NothingFound(s, i + 1);
    }
  }

  lemma NoLetterNoReference(s: string, i: nat, p: Prefix)
    requires i < |s| && !IsLetter(s[i])
    ensures !ReferenceAt(s, i, p)
  {
    if PrefixAt(s, i, p) {
      PrefixIsLetter(s, i, p);
    }
  }

  /** The third way: the limit cuts the mention off, and nothing is read back. */
  lemma CutMentionIsLost(p: Prefix, n: nat, own: string, filler: string)
    requires SUBJECT_LIMIT <= |filler| && forall k | 0 <= k < |filler| :: !IsLetter(filler[k]) && !IsSpace(filler[k])
    ensures NumberFromSubject(EmailSubject(Ticket(TicketNumber(p, n), own), filler + TicketNumber(p, n))) == None
  {
    hide ReferenceAt, Contains, Lower, TicketNumber, Collapsed, FindFrom, IsLetter, IsSpace;
    var requested := filler + TicketNumber(p, n);
    NumberIsWord(p, n);
    WordCollapses(requested);
    MentionAtEnd(filler, TicketNumber(p, n));
    assert requested[..SUBJECT_LIMIT] == filler[..SUBJECT_LIMIT];
    NothingFound(filler[..SUBJECT_LIMIT], 0);
  }

  lemma {:induction false} NoReferenceFound(s: string, i: nat)
    requires i <= |s| && forall k: nat, p | k < |s| :: !ReferenceAt(s, k, p)
    ensures FindFrom(s, i) == None
    decreases |s| - i
  {
    hide ReferenceAt;
    if i < |s| {
      NoReferenceFound(s, i + 1);
    }
  }

  /** A number that runs on into a letter is no reference, nor is any part of it. */
  lemma LetterHidesNumber(p: Prefix, n: nat, c: char, i: nat, q: Prefix)
    requires IsLetter(c) && i < |TicketNumber(p, n) + [c]|
    ensures !ReferenceAt(TicketNumber(p, n) + [c], i, q)
  {
    hide Padded, DigitsEnd, Lower;
    var w, digits, s := p.Letters(), Padded(n), TicketNumber(p, n) + [c];
    NumberParts(p, n);
    assert s == w + "-" + digits + [c];
    hide PrefixAt;
    if PrefixAt(s, i, q) {
      PrefixIsLetter(s, i, q);
      if i == 0 {
        LetterEndsNumber(p, digits, c, q);
      } else if i < |w| {
        assert IsLetter(w[i - 1]) && s[i - 1] == w[i - 1];
      } else if i < |s| - 1 {
        assert s[i] == (w + "-" + digits)[i];
        NumberHasNoLetter(p, digits, i);
      }
    }
  }

  lemma LetterEndsNumber(p: Prefix, digits: string, c: char, q: Prefix)
    requires IsLetter(c) && AllDigits(digits)
    ensures !ReferenceAt(p.Letters() + "-" + digits + [c], 0, q)
  {
    hide DigitsEnd, Lower, Prefix.Letters;
    var w, s := p.Letters(), p.Letters() + "-" + digits + [c];
    if PrefixAt(s, 0, q) {
      assert s[0..|w|] == w && PrefixAt(s, 0, p);
      PrefixOnly(s, 0, p, q);
      assert s[|w| + 1..|s| - 1] == digits;
      DigitsEndAt(s, |w| + 1, |s| - 1);
    }
  }

  lemma NumberHasNoLetter(p: Prefix, digits: string, i: nat)
    requires AllDigits(digits) && |p.Letters()| <= i < |p.Letters() + "-" + digits|
    ensures !IsLetter((p.Letters() + "-" + digits)[i])
  {
  }

  /** The fourth way: the number stands inside a longer word, which counts as mentioning
      it but is no reference. */
  lemma LongerWordIsLost(p: Prefix, n: nat, own: string, c: char)
    requires IsLetter(c) && |TicketNumber(p, n)| < SUBJECT_LIMIT
    ensures NumberFromSubject(EmailSubject(Ticket(TicketNumber(p, n), own), TicketNumber(p, n) + [c])) == None
  {
    hide ReferenceAt, Contains, Lower, TicketNumber, Collapsed, FindFrom;
    var requested := TicketNumber(p, n) + [c];
    NumberIsWord(p, n);
    WordCollapses(requested);
    MentionAtStart(TicketNumber(p, n), [c]);
    forall k: nat, q | k < |requested| ensures !ReferenceAt(requested, k, q) {
      LetterHidesNumber(p, n, c, k, q);
    }
    NoReferenceFound(requested, 0);
  }

  // ---------------------------------------------------------------- what a reference is

  predicate Alphanumeric(c: char) { 'A' <= c <= 'Z' || 'a' <= c <= 'z' || '0' <= c <= '9' }

  /** The text reads `word`, a hyphen and `digits` at `i`, with no letter or digit right
      before or after. */
  ghost predicate StandsAt(s: string, i: nat, word: string, digits: string) {
    var end := i + |word| + 1 + |digits|;
    && end <= |s| && s[i..end] == word + "-" + digits
    && (0 < i ==> !Alphanumeric(s[i - 1])) && (end < |s| ==> !Alphanumeric(s[end]))
  }

  ghost predicate ReadsAs(s: string, i: nat, p: Prefix, word: string, digits: string) {
    StandsAt(s, i, word, digits) && Lower(word) == Lower(p.Letters()) && digits != [] && AllDigits(digits)
  }

  /** A reference is a prefix in any letter case, a hyphen and one digit or more, outside
      any longer word. */
  lemma ReferenceExactly(s: string, i: nat, p: Prefix)
    ensures ReferenceAt(s, i, p) <==> exists word, digits :: ReadsAs(s, i, p, word, digits)
  {
    if word, digits :| ReadsAs(s, i, p, word, digits) {
      ReferenceReads(s, i, word, p, digits);
    }
    if ReferenceAt(s, i, p) {
      ReferenceStands(s, i, p);
    }
  }

  lemma ReferenceStands(s: string, i: nat, p: Prefix)
    requires ReferenceAt(s, i, p)
    ensures ReadsAs(s, i, p, s[i..i + |p.Letters()|], DigitsAt(s, i, p))
  {
    hide Lower, Prefix.Letters, DigitsEnd;
    var n := i + |p.Letters()|;
    var end := n + 1 + |DigitsAt(s, i, p)|;
    assert s[i..end] == s[i..n] + [s[n]] + s[n + 1..end];
  }

  lemma ContainsParts(s: string, part: string)
    ensures Contains(s, part) <==> exists before, after :: s == before + part + after
  {
    if Contains(s, part) {
      var i :| 0 <= i <= |s| && OccursAt(s, part, i);
      assert s == s[..i] + part + s[i + |part|..];
    }
    if before, after :| s == before + part + after {
      assert OccursAt(s, part, |before|);
    }
  }

  /** The prefix that a request type is numbered under. */
  lemma PrefixExactly(requestType: string)
    ensures var change, incident := Contains(Lower(requestType), "change"), Contains(Lower(requestType), "incident");
      && (PrefixFor(requestType) == CHG <==> change)
      && (PrefixFor(requestType) == INC <==> !change && (requestType == "Report an issue" || incident))
      && (PrefixFor(requestType) == HR <==> !change && !incident && requestType == "New employee request")
  {
  }

  /** The printed subject has the words of the subject asked for, or else of the ticket's
      own, single-spaced, after the number unless they contain it in some letter case; it
      is cut after 240 characters. */
  lemma SubjectHasWords(ticket: Ticket, requested: string)
    ensures var plain := PlainSubject(ticket, requested);
      && Words(plain) == Words(if requested == "" then ticket.subject else requested) && SingleSpaced(plain)
      && var mentioned := Contains(Lower(plain), Lower(ticket.number));
         var whole := if mentioned then plain else "[" + ticket.number + "] " + plain;
         && EmailSubject(ticket, requested) <= whole
         && |EmailSubject(ticket, requested)| == if |whole| <= 240 then |whole| else 240
  {
    hide Collapsed, Words, Contains, Lower, SingleSpaced;
    CollapsedWords(if requested == "" then ticket.subject else requested);
  }

  /** Incident 42 is printed with six digits and read back from a reply in lower case
      without the zeros. */
  lemma FortyTwo()
    ensures TicketNumber(INC, 42) == "INC-000042"
    ensures NumberFromSubject("re: inc-42!") == Some("INC-000042")
  {
    hide ReferenceAt, FindFrom;
    var s := "re: inc-42!";
    assert Decimal(42) == "42" && Zeros(4) == "0000";
    assert Padded(42) == "000042";
    assert NumberOf("42") == 42 by { assert "42"[..1] == "4" && "4"[..0] == ""; }
    assert s[4..10] == "inc" + "-" + "42";
    assert Lower("inc") == Lower("INC");
    ReferenceReads(s, 4, "inc", INC, "42");
    NoneBefore(s);
  }

  lemma NoneBefore(s: string)
    requires s == "re: inc-42!"
    ensures FindFrom(s, 0) == FindFrom(s, 4)
  {
    hide ReferenceAt;
    forall i: nat, p | i < 4 ensures !ReferenceAt(s, i, p) {
      NoHyphenAt(s, i, p);
    }
    assert FindFrom(s, 0) == FindFrom(s, 1) == FindFrom(s, 2) == FindFrom(s, 3) == FindFrom(s, 4);
  }

  lemma NoHyphenAt(s: string, i: nat, p: Prefix)
    requires i + |p.Letters()| < |s| && s[i + |p.Letters()|] != '-'
    ensures !ReferenceAt(s, i, p)
  {
  }
}
