/** The two format checks of the prospect forms: `validateEmail` and
    `validatePhone`, each given as the language of its regular expression
    and as the executable test the handlers call. */
module Validation {

  import opened Wrappers
  import opened Text

  /** A character of the class `[^\s@]`. */
  predicate IsEmailChar(c: char) {
    !IsSpace(c) && c != '@'
  }

  /** A string of `[^\s@]*`. */
  predicate EmailChars(s: string) {
    forall k :: 0 <= k < |s| ==> IsEmailChar(s[k])
  }

  /** A string that matches `[^\s@]+`. */
  predicate EmailRun(s: string) {
    s != [] && EmailChars(s)
  }

  /** The language of `/^[^\s@]+@[^\s@]+\.[^\s@]+$/`: three non-empty runs of
      `[^\s@]` joined by an `@` and a `.`. */
  ghost predicate EmailPatternMatches(s: string) {
    exists local, host, tld :: EmailParts(s, local, host, tld)
  }

  ghost predicate EmailParts(s: string, local: string, host: string, tld: string) {
    EmailRun(local) && EmailRun(host) && EmailRun(tld) && s == local + "@" + host + "." + tld
  }

  /** A `.` that is neither the first nor the last character. */
  predicate HasInnerDot(domain: string) {
    exists k :: 0 < k < |domain| - 1 && domain[k] == '.'
  }

  /** `validateEmail(email)`: split at the first `@`, then check both sides.
      `EmailMatchesPattern` states that this is the regular expression's test. */
  predicate ValidateEmail(email: string) {
    match IndexOf(email, "@", 0)
    case None => false
    case Some(i) =>
      var local, domain := email[..i], email[i + 1..];
      local != [] && EmailChars(local) && EmailChars(domain) && HasInnerDot(domain)
  }

  /** `validateEmail` accepts exactly the strings in the language of its
      regular expression. */
  lemma EmailMatchesPattern(email: string)
    ensures ValidateEmail(email) <==> EmailPatternMatches(email)
  {
    match IndexOf(email, "@", 0)
    case None =>
      NoAtMeansNoMatch(email);
    case Some(i) =>
      SplitAtFirstAt(email, i);
      if ValidateEmail(email) {
        JoinMatches(email, i);
      }
  }

  /** `s[i..]` starts with `"@"` exactly when `s[i]` is an `@`. */
  lemma AtAt(s: string, i: nat)
    requires i <= |s|
    ensures StartsWith(s[i..], "@") <==> i < |s| && s[i] == '@'
  {
    if i < |s| {
      assert s[i..][..1] == [s[i]];
    }
  }

  /** A run of `[^\s@]` glued to another around one such character is a run. */
  lemma EmailCharsJoin(a: string, c: char, b: string)
    requires EmailChars(a) && IsEmailChar(c) && EmailChars(b)
    ensures EmailChars(a + [c] + b)
  {
    var s := a + [c] + b;
    forall k | 0 <= k < |s|
      ensures IsEmailChar(s[k])
    {
      if k < |a| {
        assert s[k] == a[k];
      } else if k > |a| {
        assert s[k] == b[k - |a| - 1];
      }
    }
  }

  /** Every slice of a run of `[^\s@]` is one. */
  lemma EmailCharsSlice(s: string, lo: nat, hi: nat)
    requires EmailChars(s) && lo <= hi <= |s|
    ensures EmailChars(s[lo..hi])
  {
    forall k | 0 <= k < hi - lo
      ensures IsEmailChar(s[lo..hi][k])
    {
      assert s[lo..hi][k] == s[lo + k];
    }
  }

  /** A helper for `ValidateEmail`: a match contains an `@`. */
  lemma NoAtMeansNoMatch(s: string)
    requires forall j :: 0 <= j <= |s| ==> !StartsWith(s[j..], "@")
    ensures !EmailPatternMatches(s)
  {
    if local, host, tld :| EmailParts(s, local, host, tld) {
      var j := |local|;
      assert s[j] == '@';
      AtAt(s, j);
    }
  }

  /** A helper for `ValidateEmail`: in a match, the first `@` is the one that
      ends the local part, so the split there finds all three runs. */
  lemma SplitAtFirstAt(s: string, i: nat)
    requires IsFirstOccurrence(s, "@", i)
    ensures EmailPatternMatches(s) ==>
      var local, domain := s[..i], s[i + 1..];
      local != [] && EmailChars(local) && EmailChars(domain) && HasInnerDot(domain)
  {
    if local, host, tld :| EmailParts(s, local, host, tld) {
      var n := |local|;
      var domain := host + "." + tld;
      assert s == local + "@" + domain;
      AtAt(s, n);
      AtAt(s, i);
      if i < n {
        assert false;
      }
      assert i == n;
      assert s[..i] == local;
      assert s[i + 1..] == domain;
      assert domain == host + ['.'] + tld;
      EmailCharsJoin(host, '.', tld);
      assert domain[|host|] == '.';
    }
  }

  /** A helper for `ValidateEmail`: an accepted split is a match. */
  lemma JoinMatches(s: string, i: nat)
    requires i < |s| && s[i] == '@'
    requires var local, domain := s[..i], s[i + 1..];
      local != [] && EmailChars(local) && EmailChars(domain) && HasInnerDot(domain)
    ensures EmailPatternMatches(s)
  {
    var local, domain := s[..i], s[i + 1..];
    var k :| 0 < k < |domain| - 1 && domain[k] == '.';
    var host, tld := domain[..k], domain[k + 1..];
    assert domain == host + "." + tld;
    EmailCharsSlice(domain, 0, k);
    EmailCharsSlice(domain, k + 1, |domain|);
    assert s == local + "@" + domain;
    assert EmailParts(s, local, host, tld);
  }

  /** `s[i]` is an `@` and no other character of `s` is. */
  predicate OnlyAt(s: string, i: int) {
    && 0 <= i < |s| && s[i] == '@'
    && forall j :: 0 <= j < |s| && j != i ==> s[j] != '@'
  }

  /** Two runs of `[^\s@]` around an `@`: no white space, and that `@` is the
      only one. */
  lemma JoinHasOnlyAt(local: string, domain: string)
    requires EmailChars(local) && EmailChars(domain)
    ensures var s := local + ['@'] + domain; NoSpace(s) && OnlyAt(s, |local|)
  {
    var s := local + ['@'] + domain;
    forall k | 0 <= k < |s| && k != |local|
      ensures IsEmailChar(s[k])
    {
      if k < |local| {
        assert s[k] == local[k];
      } else {
        assert s[k] == domain[k - |local| - 1];
      }
    }
  }

  /** The conditions `validateEmail` is stated with below: no white space,
      exactly one `@`, something before it, and a `.` after it that is neither
      the first nor the last character of the domain. */
  predicate EmailShape(s: string) {
    NoSpace(s) && exists i :: 0 < i < |s| && OnlyAt(s, i) && HasInnerDot(s[i + 1..])
  }

  /** `validateEmail` accepts exactly the strings of `EmailShape`. */
  lemma EmailCharacterization(s: string)
    ensures ValidateEmail(s) <==> EmailShape(s)
  {
    EmailMatchesPattern(s);
    if ValidateEmail(s) {
      var local, host, tld :| EmailParts(s, local, host, tld);
      var i := |local|;
      var domain := host + ['.'] + tld;
      EmailCharsJoin(host, '.', tld);
      assert s == local + ['@'] + domain;
      JoinHasOnlyAt(local, domain);
      assert s[i + 1..] == domain;
      assert domain[|host|] == '.';
    }
    if EmailShape(s) {
      var i :| 0 < i < |s| && OnlyAt(s, i) && HasInnerDot(s[i + 1..]);
      assert EmailChars(s[..i]) by {
        forall k | 0 <= k < i
          ensures IsEmailChar(s[..i][k])
        {
          assert s[..i][k] == s[k];
        }
      }
      assert EmailChars(s[i + 1..]) by {
        forall k | i + 1 <= k < |s|
          ensures IsEmailChar(s[k])
        {
        }
      }
      JoinMatches(s, i);
    }
  }

  /** The language of `/^[67]\d{8}$/`: a French mobile number without its
      trunk prefix. */
  predicate MobilePattern(c: string) {
    |c| == 9 && (c[0] == '6' || c[0] == '7') && forall k :: 1 <= k < 9 ==> IsDigit(c[k])
  }

  /** `validatePhone(phone)`: the input with its white space removed must
      match `/^[67]\d{8}$/`. */
  predicate ValidatePhone(phone: string) {
    MobilePattern(StripSpaces(phone))
  }

  /** `validatePhone` accepts exactly the inputs whose characters other than
      white space are, in order, nine ASCII digits starting with a 6 or a 7. */
  lemma ValidatePhoneSpec(phone: string)
    ensures ValidatePhone(phone) <==>
      exists c :: NonSpaceChars(phone, c) && |c| == 9 && (c[0] == '6' || c[0] == '7') && AllDigits(c)
  {
    var c := StripSpaces(phone);
    StripSpacesIsNonSpaceChars(phone);
    if ValidatePhone(phone) {
      assert NonSpaceChars(phone, c);
    }
    forall d | NonSpaceChars(phone, d)
      ensures d == c
    {
      NonSpaceCharsUnique(phone, c, d);
    }
  }

  /** `c` is the subsequence of the characters of `s` that are not white
      space. */
  predicate NonSpaceChars(s: string, c: string)
    decreases |s|
  {
    if s == [] then c == []
    else if IsSpace(s[0]) then NonSpaceChars(s[1..], c)
    else c != [] && c[0] == s[0] && NonSpaceChars(s[1..], c[1..])
  }

  lemma {:induction false} StripSpacesIsNonSpaceChars(s: string)
    ensures NonSpaceChars(s, StripSpaces(s))
    decreases |s|
  {
    if s != [] {
      StripSpacesIsNonSpaceChars(s[1..]);
      if !IsSpace(s[0]) {
        assert StripSpaces(s)[1..] == StripSpaces(s[1..]);
      }
    }
  }

  lemma {:induction false} NonSpaceCharsUnique(s: string, c: string, d: string)
    requires NonSpaceChars(s, c) && NonSpaceChars(s, d)
    ensures c == d
    decreases |s|
  {
    if s != [] {
      if IsSpace(s[0]) {
        NonSpaceCharsUnique(s[1..], c, d);
      } else {
        NonSpaceCharsUnique(s[1..], c[1..], d[1..]);
        assert c == [c[0]] + c[1..] && d == [d[0]] + d[1..];
      }
    }
  }

  /** White space never changes the verdict: the check strips it first. */
  lemma {:induction false} ValidatePhoneIgnoresSpaces(a: string, b: string)
    ensures ValidatePhone(a + b) == ValidatePhone(StripSpaces(a) + StripSpaces(b))
  {
    StripSpacesAppend(a, b);
    StripSpacesAppend(StripSpaces(a), StripSpaces(b));
    StripSpacesIdempotent(a);
    StripSpacesIdempotent(b);
  }

  /** A number written with its national trunk prefix (ten digits starting
      with 0, such as "06 12 34 56 78") is rejected: the form wants the nine
      digits after it. */
  lemma TrunkPrefixRejected(phone: string)
    requires StripSpaces(phone) != [] && StripSpaces(phone)[0] == '0'
    ensures !ValidatePhone(phone)
  {
  }
}
