/**
  The strings the calendar builds and compares: decimal numbers as a
  template literal prints them, the "year-month-day" keys of the event table,
  and String.prototype.trim.
*/
module Text {

  predicate IsDigit(c: char) {
    '0' <= c <= '9'
  }

  predicate AllDigits(s: string) {
    forall i :: 0 <= i < |s| ==> IsDigit(s[i])
  }

  function DigitChar(n: int): (c: char)
    requires 0 <= n < 10
    ensures IsDigit(c) && DigitValue(c) == n
  {
    (48 + n) as char
  }

  function DigitValue(c: char): int
    requires IsDigit(c)
  {
    c as int - 48
  }

  /** The number a string of decimal digits denotes. */
  function DigitsValue(s: string): nat
    requires AllDigits(s)
  {
    if s == [] then 0 else DigitsValue(s[..|s| - 1]) * 10 + DigitValue(s[|s| - 1])
  }

  /** A non-negative integer in decimal, as `${n}` prints it. */
  function NatStr(n: nat): string {
    if n < 10 then [DigitChar(n)] else NatStr(n / 10) + [DigitChar(n % 10)]
  }

  /** The decimal form has at least one digit, no leading zero, and its
      digits read back as n. */
  lemma {:induction false} NatStrDigits(n: nat)
    ensures var s := NatStr(n);
      |s| >= 1 && AllDigits(s) && (n >= 1 ==> s[0] != '0') && DigitsValue(s) == n
  {
    if n >= 10 {
      NatStrDigits(n / 10);
      var s := NatStr(n);
      assert s[..|s| - 1] == NatStr(n / 10);
    }
  }

  /** An integer in decimal, with a leading '-' when it is negative. */
  function IntStr(n: int): (s: string)
    ensures |s| >= 1 && (s[0] == '-' <==> n < 0)
  {
    if n < 0 then "-" + NatStr(-n) else NatStrDigits(n); NatStr(n)
  }

  lemma NatStrInjective(a: nat, b: nat)
    requires NatStr(a) == NatStr(b)
    ensures a == b
  {
    NatStrDigits(a);
    NatStrDigits(b);
  }

  lemma IntStrInjective(a: int, b: int)
    ensures IntStr(a) == IntStr(b) <==> a == b
  {
    if IntStr(a) == IntStr(b) {
      if a < 0 {
        assert NatStr(-a) == IntStr(a)[1..] == IntStr(b)[1..] == NatStr(-b);
        NatStrInjective(-a, -b);
      } else {
        NatStrInjective(a, b);
      }
    }
  }

  /** The key renderCalendar looks up: `${year}-${month}-${day}`, unpadded. */
  function DateKey(year: int, month: nat, day: nat): string {
    IntStr(year) + "-" + NatStr(month) + "-" + NatStr(day)
  }

  /** Index of the last '-' in s, or -1 when there is none. */
  function LastDash(s: string): (r: int)
    ensures -1 <= r < |s|
  {
    if s == [] then -1
    else if s[|s| - 1] == '-' then |s| - 1
    else LastDash(s[..|s| - 1])
  }

  lemma {:induction false} LastDashOf(a: string, b: string)
    requires AllDigits(b)
    ensures LastDash(a + "-" + b) == |a|
    decreases |b|
  {
    var s := a + "-" + b;
    if b != [] {
      var b' := b[..|b| - 1];
      assert s[..|s| - 1] == a + "-" + b';
      LastDashOf(a, b');
    }
  }

  /** Splitting at the last '-' is unique when the tail is all digits. */
  lemma SplitAtLastDash(a: string, b: string, c: string, e: string)
    requires AllDigits(b) && AllDigits(e)
    ensures a + "-" + b == c + "-" + e ==> a == c && b == e
  {
    LastDashOf(a, b);
    LastDashOf(c, e);
    var s := a + "-" + b;
    if s == c + "-" + e {
      assert a == s[..|a|] == c;
      assert b == s[|a| + 1..] == e;
    }
  }

  /** Distinct dates have distinct keys, across years as well. */
  lemma DateKeyInjective(y1: int, m1: nat, d1: nat, y2: int, m2: nat, d2: nat)
    ensures DateKey(y1, m1, d1) == DateKey(y2, m2, d2) <==> y1 == y2 && m1 == m2 && d1 == d2
  {
    NatStrDigits(m1);
    NatStrDigits(d1);
    NatStrDigits(m2);
    NatStrDigits(d2);
    SplitAtLastDash(IntStr(y1) + "-" + NatStr(m1), NatStr(d1), IntStr(y2) + "-" + NatStr(m2), NatStr(d2));
    SplitAtLastDash(IntStr(y1), NatStr(m1), IntStr(y2), NatStr(m2));
    IntStrInjective(y1, y2);
  }

  /** A number padded with zeros to at least two digits. */
  function Pad2(n: nat): string {
    if n < 10 then "0" + NatStr(n) else NatStr(n)
  }

  /** A year padded with zeros to at least four digits. */
  function Pad4(n: nat): string {
    if n < 10 then "000" + NatStr(n)
    else if n < 100 then "00" + NatStr(n)
    else if n < 1000 then "0" + NatStr(n)
    else NatStr(n)
  }

  /** The zero-padded 'YYYY-MM-DD' form (month 1..12) that the comment on
      the event table names and that a date field produces. */
  function IsoDate(year: nat, month: nat, day: nat): string {
    Pad4(year) + "-" + Pad2(month) + "-" + Pad2(day)
  }

  lemma Pad2Digits(n: nat)
    ensures AllDigits(Pad2(n))
  {
    NatStrDigits(n);
  }

  lemma Pad4Digits(n: nat)
    ensures AllDigits(Pad4(n))
  {
    NatStrDigits(n);
  }

  lemma PadsAreDigits(y: nat, m: nat, d: nat)
    ensures AllDigits(Pad4(y)) && AllDigits(Pad2(m)) && AllDigits(Pad2(d))
  {
    Pad4Digits(y);
    Pad2Digits(m);
    Pad2Digits(d);
  }

  /**
    A date typed as 'YYYY-MM-DD' is the key the calendar renders for that
    date only when neither year, month nor day needs a leading zero.
  */
  lemma IsoDateIsKeyIff(y: nat, m: nat, d: nat)
    requires 1 <= m && 1 <= d
    ensures IsoDate(y, m, d) == DateKey(y, m, d) <==> 1000 <= y && 10 <= m && 10 <= d
  {
    PadsAreDigits(y, m, d);
    NatStrDigits(m);
    NatStrDigits(d);
    SplitAtLastDash(Pad4(y) + "-" + Pad2(m), Pad2(d), IntStr(y) + "-" + NatStr(m), NatStr(d));
    SplitAtLastDash(Pad4(y), Pad2(m), IntStr(y), NatStr(m));
    if y == 0 {
      assert |Pad4(y)| == 4 && |IntStr(y)| == 1;
    } else if y < 1000 {
      NatStrDigits(y);
      assert Pad4(y)[0] != IntStr(y)[0];
    }
    if d < 10 {
      assert Pad2(d)[0] != NatStr(d)[0];
    }
    if m < 10 {
      assert Pad2(m)[0] != NatStr(m)[0];
    }
  }

  /** ... and a padded one is no rendered key at all. */
  lemma PaddedIsoDateIsNoKey(y: nat, m: nat, d: nat, y2: int, m2: nat, d2: nat)
    requires m < 10 || d < 10
    requires 1 <= m2 && 1 <= d2
    ensures IsoDate(y, m, d) != DateKey(y2, m2, d2)
  {
    PadsAreDigits(y, m, d);
    NatStrDigits(m2);
    NatStrDigits(d2);
    SplitAtLastDash(Pad4(y) + "-" + Pad2(m), Pad2(d), IntStr(y2) + "-" + NatStr(m2), NatStr(d2));
    SplitAtLastDash(Pad4(y), Pad2(m), IntStr(y2), NatStr(m2));
    if d < 10 {
      assert Pad2(d)[0] != NatStr(d2)[0];
    } else {
      assert Pad2(m)[0] != NatStr(m2)[0];
    }
  }

  // ---------------------------------------------------------------------
  // String.prototype.trim

  /** ECMAScript WhiteSpace and LineTerminator code points. */
  predicate IsJsSpace(c: char) {
    c == '\t' || c == '\n' || c == '\U{000B}' || c == '\U{000C}' || c == '\r'
    || c == ' ' || c == '\U{00A0}' || c == '\U{1680}' || ('\U{2000}' <= c <= '\U{200A}')
    || c == '\U{2028}' || c == '\U{2029}' || c == '\U{202F}' || c == '\U{205F}'
    || c == '\U{3000}' || c == '\U{FEFF}'
  }

  /** Drops the leading white space: what is left is a suffix of s that is
      empty or starts with a non-space, and everything dropped is space. */
  function TrimStart(s: string): (r: string)
    ensures |r| <= |s| && r == s[|s| - |r|..]
    ensures forall i :: 0 <= i < |s| - |r| ==> IsJsSpace(s[i])
    ensures r != [] ==> !IsJsSpace(r[0])
  {
    if s != [] && IsJsSpace(s[0]) then TrimStart(s[1..]) else s
  }

  /** Drops the trailing white space: what is left is a prefix of s that is
      empty or ends with a non-space, and everything dropped is space. */
  function TrimEnd(s: string): (r: string)
    ensures |r| <= |s| && r == s[..|r|]
    ensures forall i :: |r| <= i < |s| ==> IsJsSpace(s[i])
    ensures r != [] ==> !IsJsSpace(r[|r| - 1])
  {
    if s != [] && IsJsSpace(s[|s| - 1]) then TrimEnd(s[..|s| - 1]) else s
  }

  /** String.prototype.trim: no longer than s, and neither end of a
      non-empty result is white space. */
  function Trim(s: string): (r: string)
    ensures |r| <= |s|
    ensures r != [] ==> !IsJsSpace(r[0]) && !IsJsSpace(r[|r| - 1])
  {
    var t := TrimStart(s);
    var r := TrimEnd(t);
    assert r != [] ==> r[0] == t[0];
    r
  }

  /** r is the slice of s that starts at index i. */
  predicate SliceAt(r: string, s: string, i: int) {
    0 <= i <= |s| - |r| && r == s[i..i + |r|]
  }

  /** Every character of s at an index in lo..hi-1 is white space. */
  predicate SpaceOn(s: string, lo: int, hi: int) {
    forall k :: lo <= k < hi && 0 <= k < |s| ==> IsJsSpace(s[k])
  }

  /** A prefix r of a suffix t of s is a slice of s. */
  lemma PrefixOfSuffix(s: string, t: string, r: string)
    requires |t| <= |s| && t == s[|s| - |t|..]
    requires |r| <= |t| && r == t[..|r|]
    ensures SliceAt(r, s, |s| - |t|)
  {
    assert s[|s| - |t|..][..|r|] == s[|s| - |t|..|s| - |t| + |r|];
  }

  /** What a suffix t of s holds from index n on, s holds from the matching
      index on. */
  lemma SpaceAfterPrefix(s: string, t: string, n: nat)
    requires |t| <= |s| && t == s[|s| - |t|..] && n <= |t|
    requires forall k :: n <= k < |t| ==> IsJsSpace(t[k])
    ensures SpaceOn(s, |s| - |t| + n, |s|)
  {
    forall k | |s| - |t| + n <= k < |s|
      ensures IsJsSpace(s[k])
    {
      assert s[k] == t[k - (|s| - |t|)];
    }
  }

  /** Trim keeps the slice of s that starts where the leading white space
      ends. */
  lemma TrimSlice(s: string)
    ensures SliceAt(Trim(s), s, |s| - |TrimStart(s)|)
  {
    var t := TrimStart(s);
    assert Trim(s) == TrimEnd(t);
    PrefixOfSuffix(s, t, Trim(s));
  }

  /** Everything trim drops after the kept slice is white space. */
  lemma TrimTailSpace(s: string)
    ensures SpaceOn(s, |s| - |TrimStart(s)| + |Trim(s)|, |s|)
  {
    var t := TrimStart(s);
    assert Trim(s) == TrimEnd(t);
    SpaceAfterPrefix(s, t, |Trim(s)|);
  }

  /** What trim keeps is the middle of s, starting where the leading white
      space ends: only white space is dropped before it and after it. */
  lemma TrimMiddle(s: string)
    ensures var i, r := |s| - |TrimStart(s)|, Trim(s);
      SliceAt(r, s, i) && SpaceOn(s, 0, i) && SpaceOn(s, i + |r|, |s|)
  {
    TrimSlice(s);
    TrimTailSpace(s);
  }

  /** A value trims to "" exactly when it is all white space. */
  lemma TrimEmptyIff(s: string)
    ensures Trim(s) == [] <==> forall i :: 0 <= i < |s| ==> IsJsSpace(s[i])
  {
    var t := TrimStart(s);
    if t != [] {
      assert !IsJsSpace(t[0]);
    }
  }

  /** A value with no white space at either end trims to itself. */
  lemma TrimKeepsInner(s: string)
    requires s != [] && !IsJsSpace(s[0]) && !IsJsSpace(s[|s| - 1])
    ensures Trim(s) == s
  {
    assert TrimStart(s) == s;
  }

  /** Trimming twice changes nothing more. */
  lemma TrimIdempotent(s: string)
    ensures Trim(Trim(s)) == Trim(s)
  {
    var r := Trim(s);
    if r != [] {
      TrimKeepsInner(r);
    } else {
      assert TrimStart(r) == [];
    }
  }
}
