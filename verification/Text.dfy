/** The text operations the program relies on, for ASCII text. */
module Text {
  function LowerChar(c: char): char {
    if 'A' <= c <= 'Z' then (c as int + 32) as char else c
  }

  function Lower(s: string): (r: string)
    ensures |r| == |s|
  {
    seq(|s|, i requires 0 <= i < |s| => LowerChar(s[i]))
  }

  lemma LowerTwice(s: string)
    ensures Lower(Lower(s)) == Lower(s)
  {
  }

  /** Lower case takes each capital to the letter at the same place and leaves every
      other character alone. */
  lemma LowerLetters(s: string, i: nat)
    requires i < |s|
    ensures 'A' <= s[i] <= 'Z' ==> Lower(s)[i] as int - 'a' as int == s[i] as int - 'A' as int
    ensures !('A' <= s[i] <= 'Z') ==> Lower(s)[i] == s[i]
  {
  }

  /** The characters that stripping removes. */
  predicate IsSpace(c: char) {
    c == ' ' || 9 <= c as int <= 13 || 28 <= c as int <= 31
  }

  /** Tab, line feed, vertical tab, form feed, carriage return, the four separators and
      the space. */
  lemma WhiteSpace(c: char)
    ensures IsSpace(c) <==> c as int in {9, 10, 11, 12, 13, 28, 29, 30, 31, 32}
  {
  }

  function StripLeft(s: string): (r: string)
    ensures |r| <= |s| && r == s[|s| - |r|..]
    ensures r != [] ==> !IsSpace(r[0])
  {
    if s != [] && IsSpace(s[0]) then StripLeft(s[1..]) else s
  }

  function StripRight(s: string): (r: string)
    ensures |r| <= |s| && r == s[..|r|]
    ensures r != [] ==> !IsSpace(r[|r| - 1])
  {
    if s != [] && IsSpace(s[|s| - 1]) then StripRight(s[..|s| - 1]) else s
  }

  function Strip(s: string): string { StripRight(StripLeft(s)) }

  /** Nothing to strip at either end. */
  predicate Trim(s: string) { s != [] ==> !IsSpace(s[0]) && !IsSpace(s[|s| - 1]) }

  lemma StripIsTrim(s: string)
    ensures Trim(Strip(s))
  {
    var left := StripLeft(s);
    var r := StripRight(left);
    if r != [] {
      assert r[0] == left[0];
    }
  }

  predicate AllSpaces(s: string) { forall i | 0 <= i < |s| :: IsSpace(s[i]) }

  lemma {:induction false} StripLeftParts(s: string)
    ensures AllSpaces(s[..|s| - |StripLeft(s)|])
  {
    if s != [] && IsSpace(s[0]) {
      StripLeftParts(s[1..]);
      var n := |s| - |StripLeft(s)|;
      assert s[..n] == [s[0]] + s[1..][..n - 1];
    }
  }

  lemma {:induction false} StripRightParts(s: string)
    ensures AllSpaces(s[|StripRight(s)|..])
  {
    if s != [] && IsSpace(s[|s| - 1]) {
      StripRightParts(s[..|s| - 1]);
      var n := |StripRight(s)|;
      assert s[n..] == s[..|s| - 1][n..] + [s[|s| - 1]];
    }
  }

  /** Stripping removes white space at both ends and nothing else. */
  lemma StripParts(s: string)
    ensures exists before, after :: s == before + Strip(s) + after && AllSpaces(before) && AllSpaces(after)
    ensures Trim(Strip(s))
  {
    hide StripLeft, StripRight, AllSpaces, Trim;
    var left := StripLeft(s);
    StripLeftParts(s);
    StripRightParts(left);
    StripIsTrim(s);
    assert s == s[..|s| - |left|] + Strip(s) + left[|Strip(s)|..];
  }

  lemma TrimStays(s: string)
    requires Trim(s)
    ensures Strip(s) == s
  {
  }

  /** Words separated by single spaces. */
  function Collapsed(s: string): string {
    var t := StripLeft(s);
    if t == [] then []
    else
      var w := FirstWord(t);
      var rest := Collapsed(t[|w|..]);
      if rest == [] then w else w + " " + rest
  }

  function FirstWord(s: string): (r: string)
    ensures |r| <= |s| && r == s[..|r|]
    ensures s != [] && !IsSpace(s[0]) ==> r != []
  {
    if s == [] || IsSpace(s[0]) then [] else [s[0]] + FirstWord(s[1..])
  }

  /** The words of a text, read one character at a time. */
  function Words(s: string): (r: seq<string>)
    ensures s != [] && !IsSpace(s[0]) ==> r != []
  {
    if s == [] then []
    else if IsSpace(s[0]) then Words(s[1..])
    else if |s| == 1 || IsSpace(s[1]) then [[s[0]]] + Words(s[1..])
    else
      var later := Words(s[1..]);
      [[s[0]] + later[0]] + later[1..]
  }

  /** White space is a single space between two words. */
  predicate SingleSpaced(s: string) {
    forall i | 0 <= i < |s| && IsSpace(s[i]) ::
      s[i] == ' ' && 0 < i < |s| - 1 && !IsSpace(s[i - 1]) && !IsSpace(s[i + 1])
  }

  lemma {:induction false} WordsAfterSpaces(s: string)
    ensures Words(StripLeft(s)) == Words(s)
  {
    if s != [] && IsSpace(s[0]) {
      WordsAfterSpaces(s[1..]);
    }
  }

  lemma {:induction false} WordsFirst(s: string)
    requires s != [] && !IsSpace(s[0])
    ensures Words(s) == [FirstWord(s)] + Words(s[|FirstWord(s)|..])
    ensures forall i | 0 <= i < |FirstWord(s)| :: !IsSpace(FirstWord(s)[i])
  {
    if 1 < |s| && !IsSpace(s[1]) {
      WordsFirst(s[1..]);
      assert s[1..][|FirstWord(s)| - 1..] == s[|FirstWord(s)|..];
    } else {
      assert FirstWord(s) == [s[0]];
    }
  }

  lemma {:induction false} FirstWordBeforeSpace(w: string, rest: string)
    requires forall i | 0 <= i < |w| :: !IsSpace(w[i])
    ensures FirstWord(w + " " + rest) == w
  {
    if w != [] {
      assert (w + " " + rest)[1..] == w[1..] + " " + rest;
      FirstWordBeforeSpace(w[1..], rest);
    }
  }

  /** Collapsing keeps the words and puts a single space between them. */
  lemma {:induction false} CollapsedWords(s: string)
    ensures Words(Collapsed(s)) == Words(s) && SingleSpaced(Collapsed(s))
    ensures Collapsed(s) != [] ==> !IsSpace(Collapsed(s)[0])
    decreases |s|
  {
    hide Words, SingleSpaced, IsSpace, FirstWord, StripLeft;
    var t := StripLeft(s);
    WordsAfterSpaces(s);
    if t == [] {
      NoWords();
    } else {
      var w := FirstWord(t);
      var rest := Collapsed(t[|w|..]);
      WordsFirst(t);
      CollapsedWords(t[|w|..]);
      if rest == [] {
        NoWords();
        OneWordOnly(w);
      } else {
        TwoParts(w, rest);
      }
    }
  }

  lemma NoWords()
    ensures Words([]) == [] && SingleSpaced([])
  {
  }

  lemma {:induction false} FirstWordOfWord(s: string)
    requires forall i | 0 <= i < |s| :: !IsSpace(s[i])
    ensures FirstWord(s) == s
  {
    if s != [] {
      FirstWordOfWord(s[1..]);
    }
  }

  lemma OneWordOnly(w: string)
    requires w != [] && forall i | 0 <= i < |w| :: !IsSpace(w[i])
    ensures Words(w) == [w] && SingleSpaced(w)
  {
    FirstWordOfWord(w);
    WordsFirst(w);
    assert w[|w|..] == [];
  }

  lemma TwoParts(w: string, rest: string)
    requires w != [] && forall i | 0 <= i < |w| :: !IsSpace(w[i])
    requires rest != [] && !IsSpace(rest[0]) && SingleSpaced(rest)
    ensures Words(w + " " + rest) == [w] + Words(rest) && SingleSpaced(w + " " + rest)
  {
    var s := w + " " + rest;
    FirstWordBeforeSpace(w, rest);
    WordsFirst(s);
    assert s[|w|..] == " " + rest && (" " + rest)[1..] == rest;
    forall i | 0 <= i < |s| && IsSpace(s[i])
      ensures s[i] == ' ' && 0 < i < |s| - 1 && !IsSpace(s[i - 1]) && !IsSpace(s[i + 1])
    {
      if |w| < i {
        assert s[i] == rest[i - |w| - 1];
      }
    }
  }

  predicate OccursAt(s: string, part: string, i: nat) {
    i + |part| <= |s| && s[i..i + |part|] == part
  }

  /** `part` occurs somewhere in `s`. */
  predicate Contains(s: string, part: string) {
    exists i | 0 <= i <= |s| :: OccursAt(s, part, i)
  }

  // ---------------------------------------------------------------- digits

  predicate IsDigit(c: char) { '0' <= c <= '9' }

  predicate AllDigits(s: string) { forall i | 0 <= i < |s| :: IsDigit(s[i]) }

  function DigitChar(d: nat): (c: char)
    requires d < 10
    ensures IsDigit(c)
  {
    (d + '0' as int) as char
  }

  /** The decimal digits of a number. */
  function Decimal(n: nat): (r: string)
    ensures r != [] && AllDigits(r)
  {
    if n < 10 then [DigitChar(n)] else Decimal(n / 10) + [DigitChar(n % 10)]
  }

  /** The number that digits stand for, leading zeros or not. */
  function NumberOf(s: string): nat
    requires AllDigits(s)
  {
    if s == [] then 0 else 10 * NumberOf(s[..|s| - 1]) + (s[|s| - 1] as int - '0' as int)
  }

  function Zeros(n: nat): (r: string)
    ensures |r| == n && AllDigits(r)
  {
    seq(n, _ => '0')
  }

  /** Digits with zeros in front, to a width of six at least. */
  function Padded(n: nat): (r: string)
    ensures AllDigits(r) && 6 <= |r|
  {
    var digits := Decimal(n);
    Zeros(if |digits| < 6 then 6 - |digits| else 0) + digits
  }

  lemma PaddedLength(n: nat)
    ensures |Padded(n)| == if |Decimal(n)| < 6 then 6 else |Decimal(n)|
  {
  }

  lemma {:induction false} NumberOfDecimal(n: nat)
    ensures NumberOf(Decimal(n)) == n
  {
    if 10 <= n {
      NumberOfDecimal(n / 10);
      assert Decimal(n)[..|Decimal(n)| - 1] == Decimal(n / 10);
    }
  }

  lemma {:induction false} LeadingZeros(k: nat, s: string)
    requires AllDigits(s)
    ensures AllDigits(Zeros(k) + s) && NumberOf(Zeros(k) + s) == NumberOf(s)
    decreases |s|, k
  {
    if s != [] {
      LeadingZeros(k, s[..|s| - 1]);
      assert (Zeros(k) + s)[..k + |s| - 1] == Zeros(k) + s[..|s| - 1];
    } else if 0 < k {
      LeadingZeros(k - 1, s);
      assert (Zeros(k) + s)[..k - 1] == Zeros(k - 1) + s;
    }
  }

  lemma NumberOfPadded(n: nat)
    ensures NumberOf(Padded(n)) == n
  {
    var digits := Decimal(n);
    NumberOfDecimal(n);
    LeadingZeros(if |digits| < 6 then 6 - |digits| else 0, digits);
  }

  /** Writing a number back never takes more digits than it was read from. */
  lemma {:induction false} DecimalShort(s: string)
    requires AllDigits(s) && s != []
    ensures |Decimal(NumberOf(s))| <= |s|
    decreases |s|
  {
    if 1 < |s| {
      DecimalShort(s[..|s| - 1]);
    }
  }

  function Pow10(k: nat): nat { if k == 0 then 1 else 10 * Pow10(k - 1) }

  lemma {:induction false} DecimalLength(n: nat, k: nat)
    requires 0 < k && n < Pow10(k)
    ensures |Decimal(n)| <= k
    decreases k
  {
    if 10 <= n {
      DecimalLength(n / 10, k - 1);
    }
  }

  lemma {:induction false} DecimalLong(n: nat, k: nat)
    requires Pow10(k) <= n
    ensures k < |Decimal(n)|
    decreases k
  {
    if 0 < k {
      DecimalLong(n / 10, k - 1);
    }
  }
}
