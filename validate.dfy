/** The two form checks: the email pattern /^[^\s@]+@[^\s@]+\.[^\s@]+$/ and the mobile rule
    "strip every non-digit, then /^\d{7,15}$/". */
module Validate {
  import opened Chars

  /** `[^\s@]`: the character class of all three runs of the email pattern. */
  predicate IsPlain(c: char) {
    !IsSpace(c) && c != '@'
  }

  predicate AllPlain(s: string) {
    forall k | 0 <= k < |s| :: IsPlain(s[k])
  }

  /** What the email regular expression matches: a non-empty plain run, '@', a non-empty
      plain run, '.', a non-empty plain run, and nothing else. */
  ghost predicate MatchesEmailPattern(s: string): (b: bool)
    ensures b ==> 5 <= |s|
  {
    exists at, dot | 0 < at && at + 1 < dot && dot + 1 < |s| ::
      && s[at] == '@' && s[dot] == '.'
      && AllPlain(s[..at]) && AllPlain(s[at + 1..dot]) && AllPlain(s[dot + 1..])
  }

  predicate NoSpace(s: string) {
    forall k | 0 <= k < |s| :: !IsSpace(s[k])
  }

  /** Number of occurrences of `c` in `s`. */
  function Count(s: string, c: char): nat {
    if s == [] then 0 else (if s[0] == c then 1 else 0) + Count(s[1..], c)
  }

  /** Position of the first `c` in `s`, or |s| when there is none. */
  function IndexOf(s: string, c: char): (r: nat)
    ensures r <= |s|
    ensures r < |s| ==> s[r] == c
    ensures forall k | 0 <= k < r :: s[k] != c
  {
    if s == [] then 0
    else if s[0] == c then 0
    else 1 + IndexOf(s[1..], c)
  }

  /** `d` has a '.' that is neither its first nor its last character. */
  predicate HasInnerDot(d: string) {
    exists i | 0 < i < |d| - 1 :: d[i] == '.'
  }

  /** The email check as a conjunction of simple facts: no white space, exactly one '@',
      something before it, and a '.' inside the part after it. */
  predicate IsValidEmail(s: string): (b: bool)
    ensures b ==> NoSpace(s) && 5 <= |s|
  {
    && NoSpace(s)
    && Count(s, '@') == 1
    && var at := IndexOf(s, '@');
       0 < at < |s| && HasInnerDot(s[at + 1..])
  }

  /** Exactly one occurrence of `c`: the first one is the only one. */
  lemma {:induction false} CountOne(s: string, c: char)
    ensures Count(s, c) == 1 <==>
      (IndexOf(s, c) < |s| && forall k | 0 <= k < |s| && k != IndexOf(s, c) :: s[k] != c)
  {
    if s != [] {
      CountOne(s[1..], c);
      CountZero(s[1..], c);
      if s[0] != c {
        forall k | 1 <= k < |s| ensures s[k] == s[1..][k - 1] { }
      } else {
        forall k | 1 <= k < |s| ensures s[k] == s[1..][k - 1] { }
      }
    }
  }

  /** No occurrence counts as zero. */
  lemma {:induction false} CountZero(s: string, c: char)
    ensures Count(s, c) == 0 <==> forall k | 0 <= k < |s| :: s[k] != c
  {
    if s != [] {
      CountZero(s[1..], c);
      forall k | 1 <= k < |s| ensures s[k] == s[1..][k - 1] { }
    }
  }

  /** Every string the executable check accepts matches the email regular expression. */
  lemma EmailCheckSound(s: string)
    requires IsValidEmail(s)
    ensures MatchesEmailPattern(s)
  {
    CountOne(s, '@');
    var at := IndexOf(s, '@');
    var d := s[at + 1..];
    var i :| 0 < i < |d| - 1 && d[i] == '.';
    var dot := at + 1 + i;
    assert s[dot] == '.';
    assert AllPlain(s[..at]);
    assert AllPlain(s[at + 1..dot]);
    assert AllPlain(s[dot + 1..]);
  }

  /** Every string the email regular expression matches passes the executable check. */
  lemma EmailCheckComplete(s: string)
    requires MatchesEmailPattern(s)
    ensures IsValidEmail(s)
  {
    var at, dot :| 0 < at && at + 1 < dot && dot + 1 < |s| && s[at] == '@' && s[dot] == '.'
      && AllPlain(s[..at]) && AllPlain(s[at + 1..dot]) && AllPlain(s[dot + 1..]);
    forall k | 0 <= k < |s| ensures !IsSpace(s[k]) && (k != at ==> s[k] != '@') {
      if k < at {
        assert s[k] == s[..at][k];
      } else if at < k < dot {
        assert s[k] == s[at + 1..dot][k - at - 1];
      } else if dot < k {
        assert s[k] == s[dot + 1..][k - dot - 1];
      }
    }
    CountOne(s, '@');
    assert IndexOf(s, '@') == at;
    assert s[at + 1..][dot - at - 1] == '.';
  }

  /** The executable check accepts exactly the strings the email regular expression
      matches. */
  lemma EmailCheckMatchesPattern(s: string)
    ensures IsValidEmail(s) <==> MatchesEmailPattern(s)
  {
    if IsValidEmail(s) {
      EmailCheckSound(s);
    }
    if MatchesEmailPattern(s) {
      EmailCheckComplete(s);
    }
  }

  /** `\D` removed: the ASCII digits of `s`, in order. */
  function Digits(s: string): (r: string)
    ensures |r| <= |s|
    ensures forall k | 0 <= k < |r| :: IsDigit(r[k])
  {
    if s == [] then []
    else if IsDigit(s[0]) then [s[0]] + Digits(s[1..])
    else Digits(s[1..])
  }

  /** /^\d{7,15}$/: seven to fifteen ASCII digits and nothing else. */
  predicate MatchesDigitRun(t: string) {
    7 <= |t| <= 15 && forall k | 0 <= k < |t| :: IsDigit(t[k])
  }

  /** The mobile check of registration. */
  predicate IsValidMobile(s: string): (b: bool)
    ensures b ==> 7 <= |s|
  {
    MatchesDigitRun(Digits(s))
  }

  /** Stripping non-digits distributes over concatenation. */
  lemma {:induction false} DigitsAppend(a: string, b: string)
    ensures Digits(a + b) == Digits(a) + Digits(b)
  {
    if a != [] {
      assert (a + b)[1..] == a[1..] + b;
      DigitsAppend(a[1..], b);
    } else {
      assert a + b == b;
    }
  }

  /** A string of digits is kept whole. */
  lemma {:induction false} DigitsOfDigits(s: string)
    requires forall k | 0 <= k < |s| :: IsDigit(s[k])
    ensures Digits(s) == s
  {
    if s != [] {
      DigitsOfDigits(s[1..]);
      assert s == [s[0]] + s[1..];
    }
  }

  /** A string without digits contributes nothing. */
  lemma {:induction false} DigitsOfNonDigits(s: string)
    requires forall k | 0 <= k < |s| :: !IsDigit(s[k])
    ensures Digits(s) == []
  {
    if s != [] {
      DigitsOfNonDigits(s[1..]);
    }
  }

  /** How many ASCII digits `s` holds, counted digit by digit. */
  function DigitCount(s: string): nat {
    Count(s, '0') + Count(s, '1') + Count(s, '2') + Count(s, '3') + Count(s, '4')
    + Count(s, '5') + Count(s, '6') + Count(s, '7') + Count(s, '8') + Count(s, '9')
  }

  /** Stripping non-digits keeps exactly as many characters as there are digits. */
  lemma {:induction false} DigitsLength(s: string)
    ensures |Digits(s)| == DigitCount(s)
  {
    if s != [] {
      DigitsLength(s[1..]);
    }
  }

  /** The mobile check depends only on the count of digits: it holds exactly when there
      are seven to fifteen of them, whatever other characters surround them. */
  lemma MobileIsDigitCount(s: string)
    ensures IsValidMobile(s) <==> 7 <= DigitCount(s) <= 15
  {
    DigitsLength(s);
  }

  /** Inserting non-digit characters anywhere never changes the mobile verdict. */
  lemma MobileIgnoresNonDigits(a: string, t: string, b: string)
    requires forall k | 0 <= k < |t| :: !IsDigit(t[k])
    ensures IsValidMobile(a + t + b) <==> IsValidMobile(a + b)
  {
    DigitsOfNonDigits(t);
    DigitsAppend(a + t, b);
    DigitsAppend(a, t);
    DigitsAppend(a, b);
  }

  /** A plain run of seven to fifteen digits is accepted. */
  lemma PlainDigitsAccepted(s: string)
    requires MatchesDigitRun(s)
    ensures IsValidMobile(s)
  {
    DigitsOfDigits(s);
  }
}
