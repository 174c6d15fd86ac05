/** Character classes and the pieces of Python's string library the tool relies on:
    `str.strip`, `str.split`, `str(n)` and `int(s)`. */
module Strings {
  import opened Wrappers

  /** Python's `str.isspace`: exactly the characters `str.strip()` removes. */
  predicate IsSpace(ch: char) {
    || ('\t' <= ch <= '\r')
    || ('\U{1C}' <= ch <= '\U{1F}')
    || ch == ' ' || ch == '\U{85}' || ch == '\U{A0}' || ch == '\U{1680}'
    || ('\U{2000}' <= ch <= '\U{200A}')
    || ch == '\U{2028}' || ch == '\U{2029}' || ch == '\U{202F}' || ch == '\U{205F}' || ch == '\U{3000}'
  }

  /** An ASCII decimal digit (what `\d` and `int` accept in this model). */
  predicate IsDigit(ch: char) {
    '0' <= ch <= '9'
  }

  predicate AllDigits(s: string) {
    forall i :: 0 <= i < |s| ==> IsDigit(s[i])
  }

  /** Neither the first nor the last character is whitespace. */
  predicate NoSpaceAtEnds(s: string) {
    s == [] || (!IsSpace(s[0]) && !IsSpace(s[|s| - 1]))
  }

  predicate AllSpace(s: string) {
    forall k :: 0 <= k < |s| ==> IsSpace(s[k])
  }

  function TrimStart(s: string): (r: string)
    ensures |r| <= |s|
    ensures AllSpace(s[..|s| - |r|])
    ensures r == [] || !IsSpace(r[0])
  {
    if s != [] && IsSpace(s[0]) then TrimStart(s[1..]) else s
  }

  function TrimEnd(s: string): (r: string)
    ensures |r| <= |s|
    ensures AllSpace(s[|r|..])
    ensures r == [] || !IsSpace(r[|r| - 1])
  {
    if s != [] && IsSpace(s[|s| - 1]) then TrimEnd(s[..|s| - 1]) else s
  }

  /** Python's `str.strip()`: the longest middle part with no whitespace at either end. */
  function Strip(s: string): (r: string)
    ensures NoSpaceAtEnds(r) && |r| <= |s|
  {
    var t := TrimStart(s);
    TrimEndPrefix(t);
    TrimEnd(t)
  }

  /** What `TrimStart` keeps is a suffix of its input. */
  lemma {:induction false} TrimStartSuffix(s: string)
    ensures TrimStart(s) == s[|s| - |TrimStart(s)|..]
  {
    if s != [] && IsSpace(s[0]) {
      TrimStartSuffix(s[1..]);
    }
  }

  /** What `TrimEnd` keeps is a prefix of its input. */
  lemma {:induction false} TrimEndPrefix(s: string)
    ensures TrimEnd(s) == s[..|TrimEnd(s)|]
  {
    if s != [] && IsSpace(s[|s| - 1]) {
      TrimEndPrefix(s[..|s| - 1]);
    }
  }

  /** A string strips to nothing exactly when it is all whitespace (Python's `not s.strip()`). */
  lemma StripEmptyIff(s: string)
    ensures Strip(s) == [] <==> AllSpace(s)
  {
    var t := TrimStart(s);
    var r := TrimEnd(t);
    TrimStartSuffix(s);
    TrimEndPrefix(t);
    if r == [] {
      assert t[|r|..] == t;
      assert s[..|s| - |t|] == s;
    } else {
      assert r[0] == t[0] == s[|s| - |t|];
    }
  }

  /** Stripping a string that already has no whitespace at its ends changes nothing,
      so `Strip` is idempotent. */
  lemma StripUnchanged(s: string)
    requires NoSpaceAtEnds(s)
    ensures Strip(s) == s
  {
  }

  lemma StripIdempotent(s: string)
    ensures Strip(Strip(s)) == Strip(s)
  {
    StripUnchanged(Strip(s));
  }

  /** The position of the first occurrence of `c` (what `s.split(c, 1)` cuts at). */
  function IndexOf(s: string, c: char): (i: nat)
    requires c in s
    ensures i < |s| && s[i] == c && c !in s[..i]
  {
    if s[0] == c then 0
    else
      var i := 1 + IndexOf(s[1..], c);
      assert s[..i] == [s[0]] + s[1..][..i - 1];
      i
  }

  /** The first `c` of `a + [c] + b` is the one after `a` when `a` has none. */
  lemma IndexOfAfter(a: string, c: char, b: string)
    requires c !in a
    ensures c in a + [c] + b && IndexOf(a + [c] + b, c) == |a|
  {
    var s := a + [c] + b;
    assert s[|a|] == c;
    assert s[..|a|] == a;
  }

  /** A digit string holds no non-digit character. */
  lemma DigitsExclude(s: string, c: char)
    requires AllDigits(s) && !IsDigit(c)
    ensures c !in s
  {
  }

  /** Every non-whitespace character of `s` survives `Strip`, in the same relative place. */
  lemma StripKeeps(s: string, k: nat)
    requires k < |s| && !IsSpace(s[k])
    ensures exists j :: 0 <= j < |Strip(s)| && Strip(s)[j] == s[k]
  {
    var t := TrimStart(s);
    var r := TrimEnd(t);
    TrimStartSuffix(s);
    TrimEndPrefix(t);
    assert k >= |s| - |t|;
    var j := k - (|s| - |t|);
    assert t[j] == s[k];
    assert j < |r|;
    assert r[j] == t[j];
    assert Strip(s) == r;
    assert 0 <= j < |Strip(s)| && Strip(s)[j] == s[k];
  }

  /** Python's `sep.join(ps)` for a one-character separator. */
  function Join(ps: seq<string>, c: char): string {
    if |ps| == 0 then [] else if |ps| == 1 then ps[0] else ps[0] + [c] + Join(ps[1..], c)
  }

  /** Python's `s.split(c)` for a one-character separator: at least one piece, no piece
      holds the separator, and joining the pieces back with `c` gives `s`. */
  function Split(s: string, c: char): (r: seq<string>)
    ensures |r| >= 1
    ensures forall i :: 0 <= i < |r| ==> c !in r[i]
    ensures Join(r, c) == s
  {
    if s == [] then [[]]
    else
      var rest := Split(s[1..], c);
      if s[0] == c then
        assert ([[]] + rest)[1..] == rest;
        [[]] + rest
      else
        var r := [[s[0]] + rest[0]] + rest[1..];
        assert r[1..] == rest[1..];
        r
  }

  /** A string without the separator splits into itself alone. */
  lemma {:induction false} SplitNoSeparator(s: string, c: char)
    requires c !in s
    ensures Split(s, c) == [s]
  {
    if s != [] {
      SplitNoSeparator(s[1..], c);
    }
  }

  /** Splitting distributes over a separator occurrence. */
  lemma {:induction false} SplitAppend(a: string, c: char, b: string)
    ensures Split(a + [c] + b, c) == Split(a, c) + Split(b, c)
  {
    var s := a + [c] + b;
    if a == [] {
      assert s == [c] + b;
      assert s[1..] == b;
    } else {
      assert s[0] == a[0];
      assert s[1..] == a[1..] + [c] + b;
      SplitAppend(a[1..], c, b);
      var ra, rb := Split(a[1..], c), Split(b, c);
      var rest := ra + rb;
      if a[0] == c {
        assert Split(s, c) == [[]] + rest;
        assert Split(a, c) == [[]] + ra;
      } else {
        assert rest[0] == ra[0];
        assert rest[1..] == ra[1..] + rb;
        assert Split(s, c) == [[s[0]] + rest[0]] + rest[1..];
        assert Split(a, c) == [[a[0]] + ra[0]] + ra[1..];
      }
    }
  }

  /** Splitting undoes joining, when no piece contains the separator. */
  lemma {:induction false} SplitJoin(ps: seq<string>, c: char)
    requires |ps| >= 1
    requires forall i :: 0 <= i < |ps| ==> c !in ps[i]
    ensures Split(Join(ps, c), c) == ps
  {
    if |ps| == 1 {
      SplitNoSeparator(ps[0], c);
    } else {
      SplitJoin(ps[1..], c);
      SplitAppend(ps[0], c, Join(ps[1..], c));
      SplitNoSeparator(ps[0], c);
    }
  }

  /** Every character of a joined string is the separator or a character of one of the pieces. */
  lemma {:induction false} JoinChars(ps: seq<string>, c: char, P: char -> bool)
    requires forall i, k :: 0 <= i < |ps| && 0 <= k < |ps[i]| ==> P(ps[i][k])
    ensures forall k :: 0 <= k < |Join(ps, c)| ==> Join(ps, c)[k] == c || P(Join(ps, c)[k])
  {
    if |ps| > 1 {
      JoinChars(ps[1..], c, P);
      var j := Join(ps[1..], c);
      assert Join(ps, c) == ps[0] + [c] + j;
      forall k | 0 <= k < |Join(ps, c)|
        ensures Join(ps, c)[k] == c || P(Join(ps, c)[k])
      {
        if k < |ps[0]| {
          assert Join(ps, c)[k] == ps[0][k];
        } else if k > |ps[0]| {
          assert Join(ps, c)[k] == j[k - |ps[0]| - 1];
        }
      }
    }
  }

  /** Python's `sep.join(ps)` for any separator. */
  function JoinOn(ps: seq<string>, sep: string): string {
    if |ps| == 0 then [] else if |ps| == 1 then ps[0] else ps[0] + sep + JoinOn(ps[1..], sep)
  }

  /** Python's `s.split(sep)` for a non-empty separator of any length: occurrences are taken
      left to right without overlap; joining the pieces back with `sep` gives `s`. */
  function SplitOn(s: string, sep: string): (r: seq<string>)
    requires sep != []
    ensures |r| >= 1
    ensures JoinOn(r, sep) == s
    decreases |s|
  {
    if |sep| <= |s| && s[..|sep|] == sep then
      var rest := SplitOn(s[|sep|..], sep);
      assert ([[]] + rest)[1..] == rest;
      assert s == sep + s[|sep|..];
      [[]] + rest
    else if s == [] then [[]]
    else
      var rest := SplitOn(s[1..], sep);
      var r := [[s[0]] + rest[0]] + rest[1..];
      assert r[0] == [s[0]] + rest[0];
      assert r[1..] == rest[1..];
      assert JoinOn(r, sep) == [s[0]] + JoinOn(rest, sep) by {
        if |rest| > 1 {
          assert JoinOn(rest, sep) == rest[0] + sep + JoinOn(rest[1..], sep);
        }
      }
      assert s == [s[0]] + s[1..];
      r
  }

  /** With a one-character separator, `SplitOn` is `Split`. */
  lemma {:induction false} SplitOnChar(s: string, c: char)
    ensures SplitOn(s, [c]) == Split(s, c)
  {
    if s != [] {
      SplitOnChar(s[1..], c);
      assert s[..1] == [s[0]];
    }
  }

  function DigitValue(ch: char): nat
    requires IsDigit(ch)
  {
    ch as int - '0' as int
  }

  function DigitChar(d: nat): (ch: char)
    requires d < 10
    ensures IsDigit(ch) && DigitValue(ch) == d
  {
    ('0' as int + d) as char
  }

  function Pow10(n: nat): (p: nat)
    ensures p >= 1
  {
    if n == 0 then 1 else 10 * Pow10(n - 1)
  }

  /** The number a string of digits denotes (the empty string counts as 0). */
  function Value(s: string): nat
    requires AllDigits(s)
  {
    if s == [] then 0 else Value(s[..|s| - 1]) * 10 + DigitValue(s[|s| - 1])
  }

  /** Digit strings are closed under concatenation. */
  lemma DigitsAppend(a: string, b: string)
    requires AllDigits(a) && AllDigits(b)
    ensures AllDigits(a + b)
  {
    var s := a + b;
    forall i | 0 <= i < |s| ensures IsDigit(s[i]) {
      if i < |a| { assert s[i] == a[i]; } else { assert s[i] == b[i - |a|]; }
    }
  }

  /** The value of a concatenation of digit strings. */
  lemma {:induction false} ValueAppend(a: string, b: string)
    requires AllDigits(a) && AllDigits(b)
    ensures AllDigits(a + b) && Value(a + b) == Value(a) * Pow10(|b|) + Value(b)
  {
    if b == [] {
      assert a + b == a;
    } else {
      var b' := b[..|b| - 1];
      var last := b[|b| - 1];
      assert (a + b)[..|a + b| - 1] == a + b';
      assert (a + b)[|a + b| - 1] == last;
      ValueAppend(a, b');
      var x, y, p := Value(a), Value(b'), Pow10(|b'|);
      assert Value(a + b) == (x * p + y) * 10 + DigitValue(last);
      ShiftDigit(x, p, y);
      assert Pow10(|b|) == p * 10;
      assert Value(b) == y * 10 + DigitValue(last);
    }
  }

  lemma ShiftDigit(x: int, p: int, y: int)
    ensures (x * p + y) * 10 == x * (p * 10) + y * 10
  {
  }

  /** Python's `str(n)` for a natural number: digits, no leading zero, denoting `n`. */
  function DigitsOf(n: nat): (r: string)
    ensures AllDigits(r) && r != [] && Value(r) == n
    ensures r[0] != '0' || r == "0"
  {
    if n < 10 then [DigitChar(n)]
    else
      var r := DigitsOf(n / 10) + [DigitChar(n % 10)];
      assert r[..|r| - 1] == DigitsOf(n / 10);
      r
  }

  /** `n` written with exactly `w` digits, zero-padded on the left (as `%0wd` does). */
  function PadDigits(n: nat, w: nat): (r: string)
    requires n < Pow10(w)
    ensures |r| == w && AllDigits(r) && Value(r) == n
  {
    if w == 0 then []
    else
      var r := PadDigits(n / 10, w - 1) + [DigitChar(n % 10)];
      assert r[..|r| - 1] == PadDigits(n / 10, w - 1);
      r
  }

  /** Python's `str(n)` for any integer. */
  function IntToString(n: int): string {
    if n < 0 then "-" + DigitsOf(-n) else DigitsOf(n)
  }

  /** Python's `int(s)` on a string: surrounding whitespace, an optional sign and at least
      one ASCII digit; anything else raises, here `None`. */
  function ParseInt(s: string): (r: Option<int>)
    ensures r.Some? ==> Strip(s) != [] && AllDigits(Strip(s)[1..])
  {
    var t := Strip(s);
    if t != [] && (t[0] == '-' || t[0] == '+') then
      if |t| >= 2 && AllDigits(t[1..]) then
        var sign: int := if t[0] == '-' then -1 else 1;
        Some(sign * Value(t[1..]))
      else None
    else if t != [] && AllDigits(t) then Some(Value(t))
    else None
  }

  /** `int(str(n)) == n`. */
  lemma ParseIntRoundTrip(n: int)
    ensures ParseInt(IntToString(n)) == Some(n)
  {
    var s := IntToString(n);
    if n < 0 {
      var d := DigitsOf(-n);
      assert s == "-" + d;
      assert s[1..] == d && s[|s| - 1] == d[|d| - 1];
      StripUnchanged(s);
    } else {
      var d := DigitsOf(n);
      assert s == d && IsDigit(s[0]) && IsDigit(s[|s| - 1]);
      StripUnchanged(s);
    }
  }

  /** ASCII lower-casing (Python's `str.lower` maps no other character to a letter of "all"). */
  function LowerAscii(ch: char): char {
    if 'A' <= ch <= 'Z' then (ch as int + 32) as char else ch
  }

  function Lower(s: string): (r: string)
    ensures |r| == |s| && forall i :: 0 <= i < |s| ==> r[i] == LowerAscii(s[i])
  {
    seq(|s|, i requires 0 <= i < |s| => LowerAscii(s[i]))
  }
}
