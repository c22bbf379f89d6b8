/** The JavaScript string built-ins the dashboard relies on, over `seq<char>`:
    the `\s` and `\d` regular-expression classes, `trim`, `replace` with a
    global `\s` pattern and with a string pattern, `startsWith`, and the
    decimal rendering of an integer that `String(n)` performs. */
module Text {

  import opened Wrappers

  /** JavaScript's `\s` class. It is also exactly the set of code points that
      `String.prototype.trim` removes: the WhiteSpace and LineTerminator
      productions of ECMA-262 (sections 12.2 and 12.3). */
  predicate IsSpace(c: char) {
    var n := c as int;
    || n == 0x09 || n == 0x0A || n == 0x0B || n == 0x0C || n == 0x0D
    || n == 0x20 || n == 0xA0 || n == 0x1680
    || (0x2000 <= n <= 0x200A)
    || n == 0x2028 || n == 0x2029 || n == 0x202F || n == 0x205F
    || n == 0x3000 || n == 0xFEFF
  }

  /** `\d` in a pattern without the `u` flag: the ASCII digits only. */
  predicate IsDigit(c: char) {
    '0' <= c <= '9'
  }

  predicate NoSpace(s: string) {
    forall k :: 0 <= k < |s| ==> !IsSpace(s[k])
  }

  predicate AllDigits(s: string) {
    forall k :: 0 <= k < |s| ==> IsDigit(s[k])
  }

  /** Nothing for `trim` to remove: no white space at either end. */
  predicate IsTrimmed(s: string) {
    s == [] || (!IsSpace(s[0]) && !IsSpace(s[|s| - 1]))
  }

  /** `s.startsWith(prefix)`. */
  predicate StartsWith(s: string, prefix: string) {
    |prefix| <= |s| && s[..|prefix|] == prefix
  }

  /** `s.replace(/\s/g, '')`: every white-space character removed. What
      the result holds is stated by the lemmas below. */
  function StripSpaces(s: string): (r: string)
    ensures |r| <= |s|
  {
    if s == [] then []
    else if IsSpace(s[0]) then StripSpaces(s[1..])
    else [s[0]] + StripSpaces(s[1..])
  }

  /** No white space is left after `StripSpaces`. */
  lemma {:induction false} StripSpacesNoSpace(s: string)
    ensures NoSpace(StripSpaces(s))
    decreases |s|
  {
    if s != [] {
      StripSpacesNoSpace(s[1..]);
    }
  }

  /** A string without white space comes back unchanged. */
  lemma {:induction false} StripSpacesOfNoSpace(s: string)
    requires NoSpace(s)
    ensures StripSpaces(s) == s
    decreases |s|
  {
    if s != [] {
      StripSpacesOfNoSpace(s[1..]);
      assert s == [s[0]] + s[1..];
    }
  }

  /** Stripping twice is stripping once. */
  lemma StripSpacesIdempotent(s: string)
    ensures StripSpaces(StripSpaces(s)) == StripSpaces(s)
  {
    StripSpacesNoSpace(s);
    StripSpacesOfNoSpace(StripSpaces(s));
  }

  /** Every character that is not white space is kept, as often as it
      occurs: the result is the input's non-space characters. */
  lemma {:induction false} StripSpacesKeeps(s: string, c: char)
    requires !IsSpace(c)
    ensures multiset(StripSpaces(s))[c] == multiset(s)[c]
    decreases |s|
  {
    if s != [] {
      StripSpacesKeeps(s[1..], c);
      assert s == [s[0]] + s[1..];
    }
  }

  /** Removing white space keeps the order of what remains: it distributes
      over concatenation. */
  lemma {:induction false} StripSpacesAppend(a: string, b: string)
    ensures StripSpaces(a + b) == StripSpaces(a) + StripSpaces(b)
    decreases |a|
  {
    if a == [] {
      assert a + b == b;
    } else {
      assert (a + b)[1..] == a[1..] + b;
      StripSpacesAppend(a[1..], b);
    }
  }

  /** `s.trimStart()`. */
  function TrimStart(s: string): (r: string)
    ensures |r| <= |s|
  {
    if s != [] && IsSpace(s[0]) then TrimStart(s[1..]) else s
  }

  /** `s.trimEnd()`. */
  function TrimEnd(s: string): (r: string)
    ensures |r| <= |s|
  {
    if s != [] && IsSpace(s[|s| - 1]) then TrimEnd(s[..|s| - 1]) else s
  }

  /** `trimStart` removes a prefix of white space, and no more of it than
      there is. */
  lemma {:induction false} TrimStartSpec(s: string)
    ensures var r := TrimStart(s);
      && r == s[|s| - |r|..]
      && (forall k :: 0 <= k < |s| - |r| ==> IsSpace(s[k]))
      && (r == [] || !IsSpace(r[0]))
    decreases |s|
  {
    if s != [] && IsSpace(s[0]) {
      TrimStartSpec(s[1..]);
    }
  }

  /** `trimEnd` removes a suffix of white space, and no more of it than there
      is. */
  lemma {:induction false} TrimEndSpec(s: string)
    ensures var r := TrimEnd(s);
      && r == s[..|r|]
      && (forall k :: |r| <= k < |s| ==> IsSpace(s[k]))
      && (r == [] || !IsSpace(r[|r| - 1]))
    decreases |s|
  {
    if s != [] && IsSpace(s[|s| - 1]) {
      TrimEndSpec(s[..|s| - 1]);
    }
  }

  /** `s.trim()`: white space removed from both ends. */
  function Trim(s: string): (r: string)
    ensures |r| <= |s|
  {
    TrimEnd(TrimStart(s))
  }

  /** What `trim` does: it keeps the slice `s[i..j]` and drops what lies
      outside it, which is all white space; what it keeps has no white space
      at either end. */
  lemma TrimSpec(s: string)
    ensures exists i, j :: TrimSlice(s, i, j)
    ensures IsTrimmed(Trim(s))
  {
    var t := TrimStart(s);
    var r := TrimEnd(t);
    TrimStartSpec(s);
    TrimEndSpec(t);
    var i := |s| - |t|;
    var j := i + |r|;
    assert s[i..j] == r;
    assert TrimSlice(s, i, j);
  }

  /** `s[i..j]` is what `trim` keeps: the characters outside it are white
      space, and the slice is `Trim(s)`. */
  predicate TrimSlice(s: string, i: int, j: int) {
    && 0 <= i <= j <= |s|
    && Trim(s) == s[i..j]
    && (forall k :: 0 <= k < i ==> IsSpace(s[k]))
    && (forall k :: j <= k < |s| ==> IsSpace(s[k]))
  }

  /** A string with no white space at either end is its own trim. */
  lemma TrimOfTrimmed(s: string)
    requires IsTrimmed(s)
    ensures Trim(s) == s
  {
    TrimStartSpec(s);
    TrimEndSpec(TrimStart(s));
  }

  /** `trim` gives the empty string exactly when the input is all white
      space. */
  lemma TrimEmpty(s: string)
    ensures Trim(s) == [] <==> forall k :: 0 <= k < |s| ==> IsSpace(s[k])
  {
    TrimStartSpec(s);
    TrimEndSpec(TrimStart(s));
  }

  /** `i` is where `pattern` first occurs in `s`. */
  predicate IsFirstOccurrence(s: string, pattern: string, i: int) {
    && 0 <= i <= |s|
    && StartsWith(s[i..], pattern)
    && forall j :: 0 <= j < i ==> !StartsWith(s[j..], pattern)
  }

  /** `s.indexOf(pattern, from)` when no occurrence starts before `from`:
      the first place `pattern` occurs, or `None` when it occurs nowhere. */
  function IndexOf(s: string, pattern: string, from: nat): (r: Option<nat>)
    requires from <= |s|
    requires forall j :: 0 <= j < from ==> !StartsWith(s[j..], pattern)
    ensures r.Some? ==> IsFirstOccurrence(s, pattern, r.value)
    ensures r.None? ==> forall j :: 0 <= j <= |s| ==> !StartsWith(s[j..], pattern)
    decreases |s| - from
  {
    if StartsWith(s[from..], pattern) then Some(from)
    else if from == |s| then None
    else IndexOf(s, pattern, from + 1)
  }

  /** `s.replace(pattern, replacement)` with a string pattern: the first
      occurrence of `pattern` is replaced, and `s` comes back unchanged when
      there is none. */
  function ReplaceFirst(s: string, pattern: string, replacement: string): (r: string)
    ensures forall i :: IsFirstOccurrence(s, pattern, i) ==> r == s[..i] + replacement + s[i + |pattern|..]
    ensures (forall i :: 0 <= i <= |s| ==> !StartsWith(s[i..], pattern)) ==> r == s
  {
    match IndexOf(s, pattern, 0)
    case Some(i) => s[..i] + replacement + s[i + |pattern|..]
    case None => s
  }

  function DigitChar(d: nat): char
    requires d < 10
  {
    ('0' as int + d) as char
  }

  /** The number a string of decimal digits denotes. */
  function DecimalValue(s: string): nat
    requires AllDigits(s)
  {
    if s == [] then 0 else DecimalValue(s[..|s| - 1]) * 10 + (s[|s| - 1] as int - '0' as int)
  }

  /** `String(n)` for a non-negative integer: its decimal digits, most
      significant first, which read back as `n`, with no leading zero. */
  function NatToDecimal(n: nat): (r: string)
    ensures r != [] && AllDigits(r)
    ensures DecimalValue(r) == n
    ensures r[0] == '0' ==> r == "0"
  {
    if n < 10 then
      [DigitChar(n)]
    else
      var front := NatToDecimal(n / 10);
      var r := front + [DigitChar(n % 10)];
      assert r[..|r| - 1] == front;
      r
  }

  /** `String(i)` for an integer: a leading minus sign, then the digits,
      with no leading zero, so the text is the one canonical spelling. */
  function IntToDecimal(i: int): (r: string)
    ensures r != [] && NoSpace(r)
    ensures i >= 0 ==> AllDigits(r) && DecimalValue(r) == i
    ensures i >= 0 && r[0] == '0' ==> r == "0"
    ensures i < 0 ==> r[0] == '-' && AllDigits(r[1..]) && DecimalValue(r[1..]) == -i
    ensures i < 0 ==> |r| >= 2 && r[1] != '0'
  {
    if i < 0 then
      var digits := NatToDecimal(-i);
      assert ("-" + digits)[1..] == digits;
      "-" + digits
    else
      NatToDecimal(i)
  }
}
